# Veritrail in Dafny

Veritrail signs content-addressed receipts and checks them. This project models the deterministic
code that everything else rests on, down to bytes, and proves what it promises:

- the RFC 8785 printer, the JSON reader it must agree with, and the canonical-bytes check;
- UTF-8 and base64 as Node performs them, lenient paths included, and hash strings;
- signing, single-receipt verification and lineage verification, in TypeScript and in Go;
- the two event-stream decoders and what a stream's `outputs_hash` commits to;
- A2A artifact descriptors and MCP co-signing.

Text is a sequence of UTF-16 code units, bytes are numbers below 256, and a JSON object is a list of
properties in insertion order, so that "up to member order" is something to prove. SHA-256, key
import and the signature schemes are arbitrary functions (`Verifier.Crypto`): nothing is assumed of
them. Where a key must match a seed the lemma says so (`Signer.Matches`), and every hash result
reads "this holds, or here are two different byte strings with one digest".

## Reading guide

| file | models |
|---|---|
| `Text.dfy`, `Utf8.dfy`, `Base64.dfy`, `Multihash.dfy` | `split`/`join`, the UTF-8 coders, Node's base64, hash strings |
| `Json.dfy`, `JsonParse.dfy` | JSON values and properties, `JSON.parse`, Go's `json.RawMessage` members |
| `Grammar.dfy`, `GrammarExact.dfy` | the grammar of RFC 8259 as the texts it generates, and that the reader reads exactly those |
| `RawMembers.dfy`, `DecodedJson.dfy` | members read raw, and JSON read from bytes |
| `Jcs.dfy`, `KeyOrder.dfy`, `CodePointOrder.dfy`, `JcsRoundTrip.dfy`, `JcsCanon.dfy`, `JcsOctets.dfy`, `JcsShortest.dfy` | `jcsString`/`jcsBytes`, the key sort, and their theory |
| `Verifier.dfy`, `VerifierGuarantees.dfy`, `Signer.dfy` | `verify` and `sign` |
| `Lineage.dfy`, `Chain.dfy`, `ChainGuarantees.dfy` | `verifyChain` |
| `GoChain.dfy`, `GoAgreement.dfy` | Go's `VerifyChain` and when it agrees |
| `SseLines.dfy`, `SseEvents.dfy`, `Sse.dfy` | both event-stream decoders |
| `SseUtf8.dfy`, `SseCommit.dfy`, `SseEmpty.dfy`, `GoSse.dfy` | `sse-outputs-hash` in both languages, what it commits to, and when the two agree |
| `A2a.dfy`, `Mcp.dfy` | `a2a-artifact-hash` and the MCP middleware |

## Where code and documentation part

The model follows the code.

- `jcs.ts` says keys are sorted by code point; `.sort()` compares UTF-16 code units, as RFC 8785
  section 3.2.3 asks, so only the comment is wrong. `CodePointOrder.OrdersAgree` says exactly on which
  names the two orders differ, `CodePointOrder.OrdersPart` gives a pair.
- `conformance/CONTRACT.md` and both decoders' comments say that an event with empty data is not
  dispatched, `docs/DESIGN.md` that an empty trailing message is dropped. Where empty data means no
  data line, as in `go/veritrail_test.go`, the code complies (`SseEvents.EventsNotEmpty`). Where it
  means an empty string it does not: both decoders dispatch an event that has a data line, as the HTML
  standard does (`SseEvents.MessagesAreStandard`), and keep its message.
  `SseEmpty.EmptyRulesExact` and `SseEmpty.EmptyRulesExactInTs` say exactly on which streams code and
  rules commit to the same bytes, `SseEmpty.EmptyRulesPart` gives streams on which they do not. In
  `sse-jsonrpc` mode it makes no difference (`SseEmpty.EmptyHasNoResult`).
- `docs/DESIGN.md` calls messages implicit in their separator. The commitment of `sse` mode forgets
  message boundaries: it is a function of the data lines alone (`SseCommit.CommitmentExact`), so that
  two messages and one message of both lines commit alike (`SseCommit.BoundariesForgotten`).
- `docs/DESIGN.md` commits `sse-jsonrpc` mode to the wire octets of each result; contract and code
  commit to its canonical octets. `GoSse.WireOctetsExactly` says that they are the same exactly when
  every result was sent in canonical form, and `GoSse.PrintedResultOctets` covers results that were
  printed without sorting.
- Both implementations are meant to give a stream one `outputs_hash`. In `sse` mode Go commits to the
  bytes it received and TypeScript to their text encoded again, so they part on ill-formed UTF-8:
  `SseCommit.CommitmentsAgree` gives the exact condition, that every dispatched data value is valid
  UTF-8, which every valid stream meets, and `SseCommit.IllFormedDataParts` a stream on which they
  differ.
- Both chain verifiers are meant to give one verdict. They part when a claimed parent performer is
  neither null nor a non-empty string: `GoAgreement.ChainVerdictsAgree` gives the exact condition and
  `GoAgreement.LooseClaimParts` a signed chain that Go accepts and TypeScript rejects.

## Model

| member | source | states |
|---|---|---|
| Text.SplitJoin | ts/src/commands/verify.ts:122-124 | splitting a join of separator-free parts gives the parts back |
| Text.JoinInjective | ts/src/commands/sse-outputs-hash.ts:141-143 | joining separator-free parts loses only the difference between no part and one empty part |
| Text.HexAt | ts/src/commands/sse-outputs-hash.ts:184-186 | hexadecimal text gives each byte in turn as its high digit and then its low one |
| Utf8.DecodeEncode | ts/src/commands/jcs.ts:14-16 | every text without lone surrogates survives encoding and decoding |
| Utf8.EncodeDecode | ts/src/commands/verify.ts:62-69 | decoding always yields well-formed text, and re-encoding gives the bytes back exactly when they were valid UTF-8 |
| Utf8.EncodeMends | ts/src/commands/jcs.ts:14-16 | encoding and decoding changes lone surrogates to U+FFFD and nothing else |
| Utf8.MaximalSubpart | ts/src/commands/sse-outputs-hash.ts:44-45 | ill-formed bytes become one U+FFFD for each longest front that could still have become a character, or else each byte |
| Utf8.StrictDecodeExact | ts/src/commands/verify.ts:62-69 | the strict decoder gives a text exactly for its encoding, with or without one leading BOM |
| Utf8.ToTextAscii | ts/src/commands/sse-outputs-hash.ts:44-48 | lossy decoding of any bytes, and their validity, commute with cutting at an ASCII byte |
| Base64.DecodeEncode | ts/src/commands/verify.ts:53-57 | unpadded base64 decodes back in either alphabet, passes the verifier's character guard, and has length ceil(4n/3) |
| Base64.EncodeInjective | ts/src/commands/sign.ts:36-38 | different bytes have different encodings |
| Base64.EncodeIsRfc | ts/src/commands/sign.ts:36-38 | each three bytes become four digits that spell the same 24 bits, a shorter last group two or three that end in zero bits |
| Base64.DigitTable | ts/src/commands/sign.ts:36-38 | the digits are those of tables 1 and 2 of RFC 4648 |
| Base64.UrlTextIsAlphabet | ts/src/commands/verify.ts:53-57 | the verifier's guard lets through letters, digits, `-` and `_`, and nothing else |
| Base64.LenientSkips | ts/src/commands/sse-outputs-hash.ts:136-136 | the lenient decoder skips a character of neither alphabet and stops at the first `=` |
| Base64.FlexibleExact | ts/src/commands/sign.ts:44-60 | the re-encoding guard returns `b` exactly on the canonical standard encoding of `b` with any trailing padding |
| Multihash.EncodeHashString | ts/src/commands/hashstring.ts:21-31 | the buffer-filling encoder yields `u` and the base64url of prefix and digest |
| Multihash.HashStringInjective | ts/src/commands/hashstring.ts:21-31 | hash strings are equal exactly when digests are |
| Multihash.HashStringDecodes | ts/src/commands/hashstring.ts:21-31 | a hash string is `u` and the base64url of the bytes 12, 20 (hexadecimal) and the digest in order |
| Multihash.HashStringShape | ts/src/commands/hashstring.ts:4-7 | a 32-byte digest gives 47 characters starting `uEi` and then one of A to D |
| Json.PutGet | ts/src/mcp/veritrail-middleware.ts:174-174 | setting a property changes that property only and keeps names unique |
| Json.SetAllGet | ts/src/mcp/veritrail-middleware.ts:121-146 | of the properties a literal sets under one name the last counts |
| JsonParse.ParseValid | ts/src/commands/verify.ts:138-138 | whatever parses has unique names at every depth and numbers in range |
| GrammarExact.ParseIsGrammar | ts/src/commands/verify.ts:138-159 | a text parses to a value exactly when the grammar of RFC 8259 generates it with that meaning: spaces, escapes, hexadecimal of either case, numbers, repeated names |
| GrammarExact.ValueDoc | ts/src/commands/verify.ts:138-159 | whatever is read is spaces and a document of the grammar that stands for the value read |
| GrammarExact.DocValue | ts/src/commands/verify.ts:138-159 | every document of the grammar, followed by anything that does not extend it, is read as what it stands for |
| KeyOrder.SortSorted | ts/src/commands/jcs.ts:37-37 | sorting distinct names gives strictly increasing code-unit order |
| KeyOrder.SortedUnique | ts/src/commands/jcs.ts:37-37 | a set of names has one strictly increasing arrangement |
| CodePointOrder.OrdersAgree | ts/src/commands/jcs.ts:36-37 | on well-formed names, code-unit order is code-point order exactly unless the first units that differ are a surrogate and a unit from U+E000 on |
| CodePointOrder.OrdersPart | ts/src/commands/jcs.ts:36-37 | U+1F600 sorts before U+FB33 by code unit and after it by code point |
| Jcs.SortKeeps | ts/src/commands/jcs.ts:37-37 | sorting neither drops nor invents a name |
| JcsRoundTrip.StringRoundTrip | ts/src/commands/jcs.ts:26-29 | reading an escaped string, whatever follows its quote, gives the string back: short escapes, control escapes, surrogate pairs and lone surrogates |
| JcsRoundTrip.NumberRoundTrip | ts/src/commands/jcs.ts:21-25 | reading a printed safe integer gives it back and stops where it ends |
| JcsRoundTrip.ValueRoundTrip | ts/src/commands/jcs.ts:18-43 | reading plain `JSON.stringify` output followed by any delimiter gives the value back, member order included, and the exact remainder |
| JcsRoundTrip.ParseEntriesRoundTrip | go/chain.go:120-123 | reading a printed object as raw members gives each value's own printed text |
| JcsCanon.JcsIsStringify | ts/src/commands/jcs.ts:34-40 | the canonical printer equals the plain printer after sorting every object |
| JcsCanon.JcsRoundTrips | ts/src/commands/jcs.ts:18-43 | parsing canonical text with any legal continuation consumes exactly it and gives the value with names strictly increasing at every depth |
| JcsCanon.CanonIdempotent | ts/src/commands/jcs.ts:36-39 | canonicalising twice changes nothing |
| JcsCanon.SameIsCanonEqual | ts/src/commands/jcs.ts:36-39 | values are equal up to member order exactly when their sorted forms are equal |
| JcsCanon.JcsInjective | ts/src/commands/jcs.ts:18-43 | canonical texts are equal exactly when values are equal up to member order |
| JcsCanon.ReorderInvariant | ts/src/commands/jcs.ts:35-39 | permuting an object's members never changes its canonical text |
| JcsCanon.JcsUniquelyReadable | ts/src/commands/jcs.ts:18-43 | two canonical texts with legal continuations that spell the same text are the same value and the same continuation |
| JcsCanon.CanonicalTexts | ts/src/commands/verify.ts:204-209 | a text is the canonical form of its own parse exactly when it is anybody's canonical form |
| JcsShortest.CanonicalIsShortest | ts/src/commands/jcs.ts:18-43 | no well-formed text that parses to the same value up to member order is shorter than the canonical text |
| JcsShortest.CanonicalIsLowerCase | ts/src/commands/jcs.ts:26-29 | no `\u` escape of a canonical text holds an upper-case digit |
| JcsOctets.StringifyPrintable | ts/src/commands/jcs.ts:26-29 | printed text holds no lone surrogate and no control character |
| JcsOctets.JcsBytesDecode | ts/src/commands/jcs.ts:14-16 | canonical bytes decode, strictly and leniently, to the canonical text, and hold no control byte |
| JcsOctets.JcsBytesInjective | ts/src/commands/jcs.ts:14-16 | canonical bytes are equal exactly when values are equal up to member order |
| JcsOctets.JcsBytesReparse | ts/src/commands/verify.ts:148-159 | decoding and parsing an object's canonical bytes gives the object sorted, and they pass the canonical check |
| JcsOctets.CanonicalCheckIsImage | ts/src/commands/verify.ts:204-209 | step 7 accepts exactly the image of the printer on objects |
| JcsOctets.OneEncoding | ts/src/commands/verify.ts:204-209 | each receipt value has one acceptable byte string |
| Verifier.AcceptedIsCanonical | ts/src/commands/verify.ts:117-231 | an accepted token carries exactly the canonical bytes of a valid object with a string performer |
| Verifier.ReadTokenExact | ts/src/commands/verify.ts:120-159 | a token is read exactly when it is three segments of the URL alphabet of which the first two are UTF-8 JSON objects, and as what they say |
| Verifier.SignedPart | ts/src/commands/verify.ts:199-200 | the signature is over everything before the token's last dot, and what follows the dot decodes to it |
| Verifier.SignedPartFixesToken | ts/src/commands/verify.ts:199-200 | two tokens with one signing input have the same header and the same payload bytes |
| VerifierGuarantees.FirstFailureWins | ts/src/commands/verify.ts:117-231 | malformed means not framed; otherwise the reason is the first check in the documented order that fails, each check stated by itself, and acceptance means none does |
| VerifierGuarantees.AcceptedExactly | ts/src/commands/verify.ts:117-231 | a receipt is accepted exactly when it is framed, canonical, without key material, and its first two segments with their dot are signed under the registry's own unrevoked key by the scheme that key names, in the expected context, each claim taken by its wire name |
| Signer.SignAcceptsExactly | ts/src/commands/sign.ts:73-105 | signing succeeds exactly for an object without `receipt_id`, a non-empty string kid and canonical base64 of 32 bytes |
| Signer.HeaderReadsBack | ts/src/commands/sign.ts:111-112 | the signed header reads back its alg and kid and carries no key material |
| Signer.TokenReadsBack | ts/src/commands/sign.ts:107-118 | a signed token splits and decodes to its signing input, header, payload bytes, payload and signature |
| Signer.TokenIsSigned | ts/src/commands/sign.ts:113-118 | the token is the bytes given to the signature scheme, a dot, and the encoded signature over them |
| Signer.SignedContents | ts/src/commands/sign.ts:107-112 | the header names EdDSA and the kid and nothing else; the payload is the receipt with the version under `v` |
| Signer.SignRefuses | ts/src/commands/sign.ts:73-105 | each error is given exactly when its requirement is the first, in order, that the input does not meet |
| Signer.SignedVerdict | ts/src/commands/verify.ts:117-231 | whatever is signed gets a verdict on its claims alone: never malformed, never key material, never non-canonical |
| Signer.StampKeepsClaims | ts/src/commands/sign.ts:107-108 | stamping the version leaves performer, binding and method as they were |
| Signer.SignThenVerify | ts/src/commands/sign.ts:73-119 | signing then verifying with the matching key registered is accepted exactly when the key is in force, is EdDSA, and the policy is silent or agrees |
| Lineage.CheckParents | ts/src/commands/verify-chain.ts:109-124 | the loop decides that every hop but the last names a parent and the last names none |
| Lineage.CheckLinks | ts/src/commands/verify-chain.ts:126-131 | the loop decides that every hop's parent hash is the next hop's id |
| Lineage.CheckIdentities | ts/src/commands/verify-chain.ts:133-141 | the loop decides that every claimed parent performer is the next hop's performer |
| Lineage.CheckCycle | ts/src/commands/verify-chain.ts:143-150 | the seen-set loop decides that no id repeats |
| Lineage.CheckPhases | ts/src/commands/verify-chain.ts:109-153 | the phases together return the first one the list as a whole does not meet |
| Lineage.PhasesAreWalk | ts/src/commands/verify-chain.ts:109-153 | passing all phases is the same as a recursive walk from the leaf |
| Lineage.RepeatCollides | ts/src/commands/verify-chain.ts:109-150 | a repeated id on a well-linked path yields two hops with different bytes and one hash |
| Lineage.SameIdSameLineage | ts/src/commands/verify-chain.ts:109-131 | equal ids at a hop force equal bytes from there to the root and equal length, or a collision |
| Chain.VerifyHops | ts/src/commands/verify-chain.ts:81-93 | the loop decides that every hop verifies, the caller's policy applying to the leaf only |
| Chain.ParseHops | ts/src/commands/verify-chain.ts:95-107 | on verified hops the failure branch is dead and payloads and ids are those of the hops |
| Chain.VerifiedHop | ts/src/commands/verify-chain.ts:50-70 | lenient re-parsing of a verified hop gives what was verified, and re-canonicalising it gives the transmitted bytes |
| Chain.VerifyChain | ts/src/commands/verify-chain.ts:72-154 | the verdict and length are those of the first unmet phase |
| ChainGuarantees.AcceptedIffHopByHop | ts/src/commands/verify-chain.ts:72-154 | a chain is accepted exactly when the recursive reference checker accepts it hop by hop |
| ChainGuarantees.PhasesSay | ts/src/commands/verify-chain.ts:109-141 | what each phase asks of a hop, by the wire names of the claims |
| ChainGuarantees.SuffixAccepted | ts/src/commands/verify-chain.ts:72-154 | every non-empty suffix of an accepted chain is accepted under the empty policy |
| ChainGuarantees.PrefixMalformed | ts/src/commands/verify-chain.ts:109-124 | every non-empty proper prefix of an accepted chain is rejected as malformed |
| ChainGuarantees.CycleNeedsCollision | ts/src/commands/verify-chain.ts:143-150 | the verdict `cycle` exhibits two hops whose different payload bytes have one SHA-256 digest |
| ChainGuarantees.LeafFixesLineage | ts/src/commands/verify-chain.ts:95-131 | two accepted chains with one leaf id agree in length and payload bytes at every hop, or a collision is exhibited |
| ChainGuarantees.ReplacedAncestor | docs/DESIGN.md:208-208 | changing any ancestor's payload gets the chain rejected, or a collision is exhibited |
| GoChain.CheckRawPhases | go/chain.go:60-106 | Go's loops over raw claims return the first phase they find unmet |
| GoChain.DecodeHops | go/chain.go:41-58 | the loop decodes every hop and hashes its raw payload bytes, or reports that one does not decode |
| GoChain.GoUrlDecodeExact | go/chain.go:111-120 | line breaks do not count; otherwise the URL alphabet and a possible length are all Go's decoder asks |
| GoChain.GoVerifyChain | go/chain.go:18-107 | Go's verdict and length are those of its first unmet phase |
| GoChain.RawClaimReads | go/chain.go:127-134 | on a printed payload a raw claim is null exactly when the value is null or absent, and reads as a string exactly when it is one |
| GoChain.PhasesAgree | go/chain.go:60-106 | Go's and TypeScript's phases give the same reason exactly outside the stated family of lists |
| GoAgreement.VerifiedRawHop | go/chain.go:41-58 | Go decodes a verified hop to the bytes TypeScript re-canonicalises to, and to claims that say what the payload says |
| GoAgreement.ChainVerdictsAgree | go/chain.go:18-107 | on hops both accept alike, the verdicts are equal exactly when the chain is not fully linked with a loose performer claim that nothing else rejects |
| GoAgreement.TidyClaimsAgree | go/chain.go:81-94 | the verdicts are equal when every claimed parent performer is absent, null or a non-empty string |
| GoAgreement.LooseClaimParts | go/chain.go:86-90 | a signed two-hop chain that TypeScript rejects with `parent_identity_mismatch` and Go accepts, or calls a cycle if the two payloads have one digest |
| SseLines.SplitLines | ts/src/commands/sse-outputs-hash.ts:97-129 | the index-driven scan yields the terminated lines and a non-empty unterminated one |
| SseLines.GoSplitLines | go/veritrail.go:154-179 | Go's scan yields the terminated lines only |
| SseLines.ReframedLines | docs/DESIGN.md:152-152 | under any choice of terminators the lines read are those of the fused framing, and the lines sent exactly when no lone CR precedes an empty LF line |
| SseLines.EveryStreamIsFramed | ts/src/commands/sse-outputs-hash.ts:97-129 | every stream is the rendering of its lines under some terminators, nothing lost |
| SseLines.TerminatorsAre | ts/src/commands/sse-outputs-hash.ts:97-119 | CR, LF and CRLF end a line, nothing else does |
| SseEvents.ParseEvents | ts/src/commands/sse-outputs-hash.ts:51-90 | the event loop dispatches the LF-joins of the data groups that blank lines close |
| SseEvents.GoParseEvents | go/veritrail.go:104-149 | Go's event loop dispatches the same |
| SseEvents.DataLineExactly | ts/src/commands/sse-outputs-hash.ts:63-85 | a line carries a value exactly when it is `data`, `data:` and a value that no space starts, or `data: ` and the value |
| SseEvents.MessagesAreStandard | ts/src/commands/sse-outputs-hash.ts:51-90 | the list buffer dispatches what the HTML standard's string buffer dispatches, on every line sequence |
| SseEvents.FramingIgnored | ts/src/commands/sse-outputs-hash.ts:63-85 | comment, event, id, retry and unknown lines can be dropped or inserted anywhere |
| SseEvents.LastLineSilent | ts/src/commands/sse-outputs-hash.ts:120-126 | an unterminated last line dispatches nothing |
| SseEvents.EventsNotEmpty | go/veritrail_test.go:189-199 | an event without a data line is not dispatched |
| Sse.ParseSse | ts/src/commands/sse-outputs-hash.ts:37-91 | the TypeScript decoder strips one BOM, decodes, cuts and dispatches |
| Sse.SseDecode | go/veritrail.go:95-150 | the Go decoder strips one BOM, cuts the bytes and dispatches |
| Sse.BomExactly | ts/src/commands/sse-outputs-hash.ts:39-45 | a leading EF BB BF is no part of the stream and nothing else is left out of it, in both decoders |
| Sse.DecodersAgree | go/veritrail.go:95-179 | on every byte stream, valid UTF-8 or not, TypeScript dispatches the texts of the messages Go dispatches |
| SseCommit.CommitmentExact | ts/src/commands/sse-outputs-hash.ts:141-143 | in `sse` mode, in either language, two streams commit to the same bytes exactly when the data lines they dispatch have equal values, apart from no line against one empty line |
| SseCommit.BoundariesForgotten | docs/DESIGN.md:153-153 | a message of two parts joined by LF and the two parts as messages are different messages with one commitment, in both languages |
| SseCommit.CommitmentsAgree | go/veritrail.go:194-197 | TypeScript and Go commit to the same bytes exactly when every dispatched data value is valid UTF-8, which it is on every valid stream, and otherwise hash alike only by collision |
| SseCommit.IllFormedDataParts | go/veritrail.go:194-197 | a stream with the data byte FF, on which Go commits to FF and TypeScript to EF BF BD |
| SseUtf8.DataValid | ts/src/commands/sse-outputs-hash.ts:44-48 | a valid UTF-8 stream, with or without a BOM, dispatches valid data only |
| SseUtf8.DataAgrees | go/veritrail.go:104-147 | TypeScript dispatches, data line by data line, the texts of what Go dispatches |
| GoSse.GoSseOutputsHash | go/veritrail.go:186-230 | both modes of Go's command: the LF-join of the messages, or of the canonicalised raw results, in hexadecimal and hashed; an unknown mode or a refused result is an error |
| GoSse.CollectRawParts | go/veritrail.go:202-218 | the loop canonicalises every raw `result`, skips messages that are not objects with one, and stops at a refusal |
| GoSse.RpcCommitmentsAgree | go/veritrail.go:199-219 | in `sse-jsonrpc` mode, on every stream, valid UTF-8 or not, Go commits to the bytes TypeScript commits to, if its library canonicalises the stream's results as RFC 8785 says |
| RawMembers.RawMembersAgree | go/veritrail.go:204-212 | an object's members read as raw text and parsed later are those of the object parsed whole, for any spacing, nesting and repeated names, and either reading fails when the other does |
| DecodedJson.ValueText | go/veritrail.go:204-205 | reading a JSON value from any bytes and from the text they decode to succeeds or fails alike and stops at the same place |
| DecodedJson.EntriesText | go/veritrail.go:204-205 | read from bytes or from their text, an object has the same number of members, whose names are the same if ASCII and whose raw values decode to each other |
| DecodedJson.RawMemberDecodes | go/veritrail.go:204-212 | the raw bytes of a member found in a message decode and parse to the member TypeScript finds in the decoded message, and one is there when the other is |
| RawMembers.ValueLocal | ts/src/commands/sse-outputs-hash.ts:148-154 | reading a value consumes a front part of the text, and reads the same value when what follows is replaced by nothing or by anything that begins alike |
| SseCommit.CollectParts | ts/src/commands/sse-outputs-hash.ts:145-166 | the loop collects the canonical bytes of every `result`, skipping messages that are not objects with one |
| SseCommit.ResultIs | ts/src/commands/sse-outputs-hash.ts:150-162 | a message has a result exactly when it parses to an object with a member `result`, and then that member's value |
| SseCommit.JoinParts | ts/src/commands/sse-outputs-hash.ts:167-179 | the preallocated buffer is filled exactly, in bounds, with the LF-join of the parts |
| SseCommit.SseOutputsHash | ts/src/commands/sse-outputs-hash.ts:131-188 | an unknown mode is refused; otherwise the mode's committed bytes are returned in hexadecimal with their hash |
| SseCommit.OutputExact | ts/src/commands/sse-outputs-hash.ts:182-187 | in either mode the returned hexadecimal is equal exactly when the streams say the same in that mode, and the returned hash exactly then or on a collision |
| SseCommit.RpcCommitmentExact | conformance/CONTRACT.md:96-96 | in `sse-jsonrpc` mode the committed bytes determine the list of results up to member order, and nothing finer |
| GoSse.WireOctetsExactly | docs/DESIGN.md:154-154 | the committed bytes are the results' octets as sent exactly when every result was sent in canonical form |
| GoSse.PrintedResultOctets | docs/DESIGN.md:154-154 | for a result as `JSON.stringify` prints it in ASCII, the octets sent are committed exactly when its members were in canonical order already |
| SseCommit.ReframingInvariant | docs/DESIGN.md:156-156 | changing terminators or framing lines, or prefixing EF BB BF, leaves both decoders' messages and all commitments unchanged |
| SseCommit.StreamRoundTrip | go/veritrail.go:104-149 | writing any CR-free byte messages as a stream and decoding it gives them back in Go, and their texts in TypeScript |
| SseCommit.TextStreamRoundTrip | ts/src/commands/sse-outputs-hash.ts:54-90 | writing any CR-free texts without lone surrogates as a stream and decoding it in TypeScript gives the texts back |
| SseEmpty.EmptyRulesExact | conformance/CONTRACT.md:94-94 | Go commits to what the contract's rule commits to exactly when no dispatched event is one empty data line or it is the only event, and to what the design's rule does exactly when the last one is not or is the only one |
| SseEmpty.EmptyRulesExactInTs | docs/DESIGN.md:153-153 | TypeScript meets both rules on exactly the same streams |
| SseEmpty.EmptyRulesPart | ts/src/commands/sse-outputs-hash.ts:51-62 | a message followed by an event of one empty data line: the code commits to the message and LF, the rules to the message |
| SseEmpty.EmptyHasNoResult | conformance/CONTRACT.md:94-96 | dropping empty messages changes no list of results |
| A2a.BuildDescriptor | ts/src/commands/a2a-artifact-hash.ts:105-121 | the loop succeeds exactly when every part is supported and yields their descriptors in order |
| A2a.SupportedExactly | ts/src/commands/a2a-artifact-hash.ts:57-103 | a part is supported exactly when it is text, data, or a file with textual content or address |
| A2a.TextDescriptor | ts/src/commands/a2a-artifact-hash.ts:60-62 | a text part's descriptor holds its kind and text and nothing else |
| A2a.DataDescriptor | ts/src/commands/a2a-artifact-hash.ts:64-66 | a data part's descriptor holds its kind and data and nothing else |
| A2a.InlineDescriptor | ts/src/commands/a2a-artifact-hash.ts:68-82 | an inline file's descriptor holds its kind, the hash string of its decoded content, its media type and its name, each null when absent, and nothing else |
| A2a.UriDescriptor | ts/src/commands/a2a-artifact-hash.ts:83-93 | a file by reference is described by kind, address, declared digest, media type and name, and nothing else |
| A2a.ArtifactDescriptor | ts/src/commands/a2a-artifact-hash.ts:105-121 | an artifact's descriptor holds its parts' descriptors in order under `parts`, and nothing else |
| A2a.ArtifactHash | ts/src/commands/a2a-artifact-hash.ts:123-133 | an unsupported part is refused; otherwise the descriptor's canonical bytes are returned in hexadecimal with their hash |
| A2a.KindsApart | ts/src/commands/a2a-artifact-hash.ts:57-99 | supported parts of different kinds, text, data, inline or by-uri, have different descriptor bytes |
| A2a.PartCommits | ts/src/commands/a2a-artifact-hash.ts:57-99 | two supported parts have the same descriptor bytes exactly when they say the same up to ignored fields, null fields and base64 spelling, or their inline contents collide |
| A2a.DescriptorCommits | ts/src/commands/a2a-artifact-hash.ts:105-133 | supported artifacts have equal descriptor bytes exactly when, part by part in order, they say the same or their inline contents collide |
| A2a.ArtifactExact | ts/src/commands/a2a-artifact-hash.ts:123-133 | two artifacts' returned descriptors are equal exactly when they say the same, and their hashes exactly then or on a collision |
| Mcp.PayloadClaims | ts/src/mcp/veritrail-middleware.ts:121-146 | the receipt is a valid object of sixteen members: version, binding, performer, method, the hashes of parameters and of the result without `_meta`, cost, status, log policy, time, nonce, and five nulls, each by its wire name |
| Mcp.CostSays | ts/src/mcp/veritrail-middleware.ts:134-139 | the cost block holds zero tokens and money, the measured time and a null rail reference |
| Mcp.CoSignedVerifies | ts/src/mcp/veritrail-middleware.ts:155-163 | the receipt verifies under the signer's registry and the call's policy, and the verifier reads the result's hash in it |
| Mcp.AttachKeepsHash | ts/src/mcp/veritrail-middleware.ts:95-104 | attaching any receipt leaves the stripped result and its hash unchanged |
| Mcp.StripMetaReads | ts/src/mcp/veritrail-middleware.ts:95-99 | what is hashed of a result is every field of it but `_meta` |
| Mcp.AttachAdds | ts/src/mcp/veritrail-middleware.ts:170-176 | the receipt is found under its key and every other field and `_meta` entry is as before |
| Mcp.SigningAgain | ts/src/mcp/veritrail-middleware.ts:170-176 | co-signing a result that already carries a receipt commits to the same hash |
| Mcp.AttachedReceipt | ts/src/mcp/veritrail-middleware.ts:170-176 | the result with the receipt attached carries one that verifies and commits to that very result |
| Mcp.VeritrailToolResult | ts/src/mcp/veritrail-middleware.ts:170-176 | the result is updated in place by exactly the attached receipt, keeps its outputs hash, and carries a verifying receipt |
| Mcp.OutputsHashBinds | ts/src/mcp/veritrail-middleware.ts:95-104 | two results have one outputs hash exactly when every name but `_meta` is absent from both or holds the same value in both up to member order, or a collision is exhibited |

## Left out

- JsonParse.Parse: integers within ±(2^53 − 1) only; a token with a fraction, an exponent or a larger magnitude fails to parse, because how such numbers round and print belongs to the JS engine.
- GoChain.GoVerifyChain: takes Go's single-receipt verifier as a parameter, because its base64 and JSON libraries differ from Node's on malformed input; the agreement lemmas assume only that it answers like the TypeScript one on the receipts at hand and decodes what it accepts.
- GoChain.DecodePayload: reads the payload as decoded text, not bytes, and refuses the literal `null`; on a payload that both single-receipt verifiers accept this is what Go's reader does.
- GoChain.StringClaim: keeps lone-surrogate escapes, where Go's reader puts U+FFFD; the two differ only on a payload with such an escape that Go's own `Verify` accepts.
- Json.Put: a new name goes last, where a JavaScript object lists integer-like names first; so member order in JsonParse.Parse and JcsRoundTrip.ValueRoundTrip is that of the model's lists, and of a JavaScript object only without such names. Nothing canonical depends on it.
- GoSse.GoSseOutputsHash: its canonicaliser is a third-party library, kept as an arbitrary function from bytes to bytes.
- GoSse.RpcCommitmentsAgree: assumes of the library only that it canonicalises the results at hand.
- A2a.BuildDescriptor: parts are JSON objects; an artifact without a parts array, and a null part, on which the source throws, are not modelled.
- Mcp.VeritrailToolResult: `_meta` is absent, null or an object, as its type declares; the random nonce is a parameter.
- Verifier.Verify: the token is a string and the registry a plain map; prototype-named keys are not modelled.
- Chain.VerifyChain: the source's one function is split into a method per loop; the receipts are a list of strings.
- SHA-256, Ed25519, ES256 and key import: foreign calls, kept as arbitrary functions.
- `undefined`, functions and other non-JSON values inside `jcsString`: only JSON values are modelled, an absent A2A field counting as null.
- The command-line wrappers, the MCP and A2A servers, `cost-canon`, `receipt-id` and `digest` commands, the vector generators: I/O or one-branch wrappers.
- The transparency log, DAG fan-out and cost aggregation of `docs/DESIGN.md`: specified, not implemented.
