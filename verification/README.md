# Verification of the simple server and its googletest core

A Dafny model of the algorithmic parts of the server (`src/SHA1.cpp`,
`src/websocket_handler.cpp`) and of the googletest tree kept under `google_test/`, with
proofs of what they promise. Code that works by updating state is modelled by classes,
arrays and loops in the same shape; each such method is proved against a function of its
inputs or of its old state, and the properties are lemmas about those functions.

`dafny verify dfyconfig.toml` checks everything.

| file | what it models |
|---|---|
| `BipartiteMatching.dfy` | the maximum bipartite matching of gmock and the two checks of `UnorderedElementsAre` built on it |
| `PrerequisiteGraph.dfy`, `ExpectationRuns.dfy`, `Expectations.dfy` | expectations with prerequisites: the three worklist traversals, handled calls, sequences, and runs in which all of these alternate |
| `Bytes.dfy`, `Bits.dfy`, `Common.dfy` | octets, big-endian numbers, bitwise operations on 32-bit words; shared definitions |
| `Sha1.dfy` | SHA-1 as FIPS PUB 180-1 defines it, and the streaming object that refines it |
| `WordBits.dfy` | what the word operations, logical functions and constants of SHA-1 are, bit by bit |
| `Base64.dfy` | the two base64 encoders of the server and the decoder of gmock |
| `WebSocketFrames.dfy` | the frame writer and reader of the server, on octet streams |
| `WebSocketManager.dfy` | the handshake key, and whole runs of registrations and broadcasts |
| `SimpleRegex.dfy` | the simple regular expressions of gtest: validator, matcher, class `RE` |
| `UInt128Printer.dfy` | decimal printing of 128-bit integers with 64-bit arithmetic |
| `Utf8Validator.dfy` | the UTF-8 validator |
| `StringLiteralPrinter.dfy` | strings printed as C++ literals, judged by a reader of C++ literals |
| `PrimeTables.dfy` | trial division, the sieve and the hybrid table of the googletest samples |
| `Shuffle.dfy`, `RandomPeriod.dfy` | the in-place shuffle of tests, the choices of its generator, and the period of the generator |

Where the code falls short of its comments, the code is modelled and the exact condition is
proved:

- The strided base64 encoder ends exactly on fewer than 2^32 octets (`Base64Encode`,
  `CounterPassesLength`).
- Printed string literals read back exactly when no NUL stands before an octal digit
  (`PrintedTextRoundTrip`).
- `RE::FullMatch` matches the entire string exactly when the pattern does not end in an escaped
  dollar sign (`FullMatchIsExact`).
- The hybrid prime table agrees with trial division on all arguments when there is no table.
  With a table it agrees exactly on p >= 0, and on p = -1 when the table holds no prime; for
  p < -1 the table reads before its array (`HybridAgrees`). A table for a maximum below 1 is
  written outside its array (`PreCalculatedPrimeTable`).
- The two queries about prerequisites agree on all expectations exactly when every expectation
  with an unsatisfied transitive prerequisite has an immediate one that is unsatisfied, or that
  was never called and has the same trouble (`AgreementIsExact`). They disagree in a run that
  adds a prerequisite to an expectation after a call of it (`DisagreeingRun`); the documentation
  of gmock calls such late additions undefined (`google_test/gtest/docs/gmock_cheat_sheet.md`, line 211), but
  the code carries them out. Calls and additions may alternate as long as every addition
  comes in time, and a condition that can be checked before the addition decides that
  (`AdditionKeepsOrder`, `QueriesAgreeInRuns`).
- Adding an expectation to a sequence, which the code does without a check, keeps the
  prerequisite graph acyclic exactly when the last expectation of the sequence does not already
  depend on the new one (`Sequence.AddExpectation`).

## Model

| member | source | states |
|---|---|---|
| BipartiteMatching.MatchMatrix.SpaceIndex | google_test/gtest/googlemock/include/gmock/gmock-matchers.h:3540-3542 | every index into the flat matrix is inside it |
| BipartiteMatching.EdgesAreSet | google_test/gtest/googlemock/include/gmock/gmock-matchers.h:3516-3528 | a new matrix has no edges, and setting one changes that edge and no other |
| BipartiteMatching.MaxBipartiteMatchState.constructor | google_test/gtest/googlemock/src/gmock-matchers.cc:126-129 | both sides have the sizes of the graph and nothing is matched |
| BipartiteMatching.MaxBipartiteMatchState.TryAugment | google_test/gtest/googlemock/src/gmock-matchers.cc:168-208 | on success the element joins the matching, no other element changes between matched and unmatched, no matcher is freed and seen matchers stay; on failure nothing moves and the seen set is closed under alternating steps; entering a dead set always fails; terminates on the unseen matchers |
| BipartiteMatching.MaxBipartiteMatchState.Compute | google_test/gtest/googlemock/src/gmock-matchers.cc:131-163 | the result is a matching in order of its elements, and no matching of the graph is larger, although each element is tried once |
| BipartiteMatching.MaxBipartiteMatchState.MatchedPairs | google_test/gtest/googlemock/src/gmock-matchers.cc:156-162 | lists exactly the recorded pairs, each once, in order of their elements |
| BipartiteMatching.LinkRestoresMutual | google_test/gtest/googlemock/src/gmock-matchers.cc:104-105 | linking an element to a released matcher restores the mutual references except at the matcher it leaves |
| BipartiteMatching.LinkFree | google_test/gtest/googlemock/src/gmock-matchers.cc:193-204 | linking to a free matcher is a whole augmentation |
| BipartiteMatching.LinkMoved | google_test/gtest/googlemock/src/gmock-matchers.cc:197-204 | an augmentation from the partner of a taken matcher, followed by linking to that matcher, is an augmentation |
| BipartiteMatching.CertificateAfterSuccess | google_test/gtest/googlemock/src/gmock-matchers.cc:135-155 | a later success does not give an element that failed before a live neighbour |
| BipartiteMatching.CertificateAfterFailure | google_test/gtest/googlemock/src/gmock-matchers.cc:135-155 | after a failed search what was seen is dead for all later searches |
| BipartiteMatching.CoverBoundsMatching | google_test/gtest/googlemock/src/gmock-matchers.cc:131-163 | no matching is larger than a vertex cover |
| BipartiteMatching.Certified | google_test/gtest/googlemock/src/gmock-matchers.cc:131-163 | when every unmatched element has only dead neighbours, the recorded pairs are a matching of maximum size |
| BipartiteMatching.SuccessAddsOnePair | google_test/gtest/googlemock/src/gmock-matchers.cc:168-183 | a successful trial adds exactly the tried element to the matched ones and one pair to the matching |
| BipartiteMatching.FindMaxBipartiteMatching | google_test/gtest/googlemock/src/gmock-matchers.cc:228-230 | returns a matching of maximum size |
| BipartiteMatching.PairingSize | google_test/gtest/googlemock/src/gmock-matchers.cc:437-463 | a matching meets the flags if and only if its size reaches the sides they ask for |
| BipartiteMatching.FindPairing | google_test/gtest/googlemock/src/gmock-matchers.cc:437-476 | true if and only if some matching uses all matchers (Superset), all elements (Subset), or both |
| BipartiteMatching.VerifyMatchMatrix | google_test/gtest/googlemock/src/gmock-matchers.cc:370-435 | true if and only if both sides are empty, or the sizes agree for an exact match and every matcher (Superset) and element (Subset) has an edge |
| BipartiteMatching.RejectedMatrixHasNoPairing | google_test/gtest/googlemock/src/gmock-matchers.cc:365-369 | a matrix that has a pairing passes the early check |
| BipartiteMatching.MatchAndExplain | google_test/gtest/googlemock/include/gmock/gmock-matchers.h:3651-3652 | the verdict is the existence of a pairing: the early check never changes it |
| PrerequisiteGraph.AgreementIsExact | google_test/gtest/googlemock/src/gmock-spec-builders.cc:134-183 | on an acyclic graph the two queries agree on all expectations if and only if every one with unsatisfied transitive prerequisites shows this in an immediate prerequisite, which is unsatisfied, or uncalled with the same trouble |
| PrerequisiteGraph.TroubleIsFound | google_test/gtest/googlemock/src/gmock-spec-builders.cc:164-181 | where trouble shows everywhere, the restricted search meets an unsatisfied prerequisite |
| PrerequisiteGraph.FoundTroubleShows | google_test/gtest/googlemock/src/gmock-spec-builders.cc:164-181 | an expectation for which the restricted search finds something shows it in an immediate prerequisite |
| PrerequisiteGraph.QueriesAgree | google_test/gtest/googlemock/src/gmock-spec-builders.cc:170-174 | the assumption behind the restriction: when every satisfied and called expectation has only satisfied transitive prerequisites, the queries agree, on any closed graph |
| PrerequisiteGraph.WitnessOnPath | google_test/gtest/googlemock/src/gmock-spec-builders.cc:164-181 | on every path to an unsatisfied prerequisite the restricted search meets an unsatisfied one |
| PrerequisiteGraph.EdgeKeepsAcyclic | google_test/gtest/googlemock/src/gmock-spec-builders.cc:758-766 | a new edge keeps the graph acyclic if and only if it closes no cycle |
| PrerequisiteGraph.NothingOwed | google_test/gtest/googlemock/src/gmock-spec-builders.cc:117-131 | when the worklist is empty, everything below the start is retired and nothing is retired before its prerequisites |
| ExpectationRuns.RetiringReachesAll | google_test/gtest/googlemock/src/gmock-spec-builders.cc:111-115 | when nothing was retired before its prerequisites, stopping at retired expectations still retires all transitive prerequisites, and keeps this so |
| ExpectationRuns.CreationKeepsOrder | google_test/gtest/googlemock/include/gmock/gmock-spec-builders.h:858-863 | a new expectation keeps the order |
| ExpectationRuns.CallKeepsOrder | google_test/gtest/googlemock/include/gmock/gmock-spec-builders.h:1218-1244 | a call keeps the order: nothing is retired before its prerequisites, and satisfied and called expectations have only satisfied and retired prerequisites |
| ExpectationRuns.AdditionKeepsOrder | google_test/gtest/googlemock/src/gmock-spec-builders.cc:758-766 | a new prerequisite keeps the graph acyclic and the order if and only if it comes in time: it closes no cycle, is retired if its dependant is, and it and all below it are satisfied and retired if a satisfied and called expectation relies on its dependant |
| ExpectationRuns.NewExpectationIsInTime | google_test/gtest/googlemock/src/gmock-spec-builders.cc:758-766 | for an uncalled, active expectation that is nobody's prerequisite every other expectation comes in time |
| ExpectationRuns.NewExpectationIsUnreachable | google_test/gtest/googlemock/src/gmock-spec-builders.cc:758-766 | nothing leads to an expectation that is nobody's prerequisite |
| ExpectationRuns.QueriesAgreeInRuns | google_test/gtest/googlemock/src/gmock-spec-builders.cc:134-183 | in every state of every run of new expectations, calls and timely prerequisites in any order, the graph is acyclic, the order holds and the two queries agree on every expectation |
| Expectations.ExpectationBase.constructor | google_test/gtest/googlemock/src/gmock-cardinalities.cc:52-53 | a new expectation is uncalled and unretired, with the lower bound raised to 0 and the upper bound raised to the lower one |
| Expectations.ExpectationBase.RetireAllPreRequisites | google_test/gtest/googlemock/src/gmock-spec-builders.cc:108-132 | in any state retires exactly what is reached through unretired expectations, and nothing if the receiver is retired; these are all transitive prerequisites when nothing was retired before its prerequisites, which stays so; changes nothing else, and terminates on any graph |
| Expectations.ExpectationBase.Retire | google_test/gtest/googlemock/include/gmock/gmock-spec-builders.h:780-783 | adds the receiver to the retired expectations |
| Expectations.ExpectationBase.IncrementCallCount | google_test/gtest/googlemock/include/gmock/gmock-spec-builders.h:823-826 | counts one call and leaves everything else about other expectations as it was |
| Expectations.ExpectationBase.AllPrerequisitesAreSatisfied | google_test/gtest/googlemock/src/gmock-spec-builders.cc:134-153 | on an acyclic graph terminates and is true if and only if all transitive prerequisites are satisfied |
| Expectations.ExpectationBase.FindUnsatisfiedPrerequisites | google_test/gtest/googlemock/src/gmock-spec-builders.cc:155-183 | on an acyclic graph terminates and adds exactly the unsatisfied prerequisites met through satisfied ones that were never called |
| Expectations.ExpectationBase.HandleCall | google_test/gtest/googlemock/include/gmock/gmock-spec-builders.h:1124-1253 | a call is taken if and only if the expectation is active and its prerequisites are satisfied; it is then counted; it is excessive exactly when the upper bound was reached before, and otherwise retires the prerequisites; it retires an expectation that retires on saturation exactly when the count is then the upper bound; the order is kept if it held; every call is a call step of a run |
| Expectations.ExpectationBase.TakeCalls | google_test/gtest/googlemock/include/gmock/gmock-spec-builders.h:1218-1253 | over n calls of a new expectation with satisfied prerequisites: one that retires on saturation takes exactly its upper bound of calls, is retired from then on and refuses all later ones; any other takes all, and exactly those beyond the upper bound are excessive |
| Expectations.FreshNodesAreInOrder | google_test/gtest/googlemock/include/gmock/gmock-spec-builders.h:860-863 | expectations that were never called are in order |
| Expectations.NewExpectationJoins | google_test/gtest/googlemock/include/gmock/gmock-spec-builders.h:858-863 | a newly constructed expectation is a creation step of a run |
| Expectations.DisagreeingRun | google_test/gtest/googlemock/src/gmock-spec-builders.cc:134-183 | a run of the methods above at whose end the first query says no and the second finds nothing |
| Expectations.Sequence.AddExpectation | google_test/gtest/googlemock/src/gmock-spec-builders.cc:757-766 | adds exactly the edge to the last expectation of the sequence, if there is another one; the graph stays acyclic if and only if that one does not already lead to the new one, and acyclic and in order if and only if it comes in time |
| Sha1Standard.BlocksAppend | src/SHA1.cpp:360-436 | compressing a message of whole blocks and then more is compressing both together |
| Sha1Standard.PadMakesWholeBlocks | src/SHA1.cpp:459-496 | the padded message is a whole number of blocks |
| Sha1Standard.PadInjective | src/SHA1.cpp:459-496 | messages of fewer than 2^64 bits have different padded forms |
| Sha1.SHA1.constructor | src/SHA1.cpp:56-87 | a new object has seen the empty message |
| Sha1.SHA1.Reset | src/SHA1.cpp:74-87 | from any state, the object has seen the empty message |
| Sha1.SHA1.Input | src/SHA1.cpp:144-173 | appends the octets to the message; refuses them after a result; is corrupted by the octet that makes 2^64 bits |
| Sha1.SHA1.StoreOctet | src/SHA1.cpp:155-169 | one octet joins the message, its block is compressed when full, and the two counter words hold the bit length |
| Sha1.SHA1.CountOctet | src/SHA1.cpp:157-165 | the two words hold the bit length modulo 2^64, and corruption is set exactly when it wraps |
| Sha1.SHA1.Result | src/SHA1.cpp:107-124 | true if and only if not corrupted, and then writes the SHA-1 digest of the message, however often it is asked |
| Sha1.SHA1.PadMessage | src/SHA1.cpp:459-496 | after padding in place to one or two blocks, the chaining words are the digest of the message |
| Sha1.SHA1.FillWithZeros | src/SHA1.cpp:467-480 | fills the block with zeros up to the given index |
| Sha1.SHA1.StoreLength | src/SHA1.cpp:483-493 | the last eight octets are the 64-bit length, most significant first |
| Sha1.SHA1.ProcessMessageBlock | src/SHA1.cpp:360-436 | the chaining words become the compression of the block by section 7 of FIPS PUB 180-1, and the buffer is empty |
| Sha1.SHA1.WordSequence | src/SHA1.cpp:368-380 | the 80 words are W(0) to W(79) of the block |
| Sha1.SHA1.FirstRounds | src/SHA1.cpp:382-406 | the first two loops do rounds 0 to 39 |
| Sha1.SHA1.LastRounds | src/SHA1.cpp:408-427 | the last two loops do rounds 40 to 79 |
| Sha1.SHA1.AddToChain | src/SHA1.cpp:429-433 | the word buffers are added to the chaining words modulo 2^32 |
| Sha1.WordIsAssembled | src/SHA1.cpp:371-376 | shifting and or-ing four octets gives the big-endian word |
| Sha1.LengthOctets | src/SHA1.cpp:486-493 | the octets taken from the two counter words are the big-endian 64-bit length |
| Sha1.DigestOfShort | src/SHA1.cpp:476-495 | up to 55 buffered octets the padding fits into the last block |
| Sha1.DigestOfLong | src/SHA1.cpp:465-495 | from 56 buffered octets on the padding takes another block |
| Sha1.InputsJoin | src/SHA1.cpp:144-173 | two inputs in a row are one input of the concatenation, in every state |
| Sha1.SplitsDoNotMatter | src/SHA1.cpp:144-173 | any split of a message into calls of Input leads to the same state |
| Sha1.ResultInRuns | src/SHA1.cpp:74-173 | in every run of Reset, Input and Result, a result can be had exactly when the octets since the last Reset are fewer than 2^61 and none came after a result, and it is the digest of exactly those |
| WordBits.WordOperations | src/SHA1.cpp:389-419 | and, or, exclusive or and complement of words, bit by bit |
| WordBits.WordSum | src/SHA1.cpp:388-390 | the sum of two words, less 2^32 if it does not fit |
| WordBits.RotatedBits | src/SHA1.cpp:516-518 | the circular shift moves bit (i + 32 - n) modulo 32 of the word to place i |
| WordBits.LogicalFunctions | src/SHA1.cpp:388-421 | bit by bit, the functions of the four loops are choice, parity, majority and parity, as in section 5 of FIPS PUB 180-1 |
| WordBits.Constants | src/SHA1.cpp:361-362 | the four constants are the whole parts of 2^30 times the square roots of 2, 3, 5 and 10 |
| WordBits.InitialOctets | src/SHA1.cpp:79-83 | the five initial words, octet by octet |
| SimpleRegex.ValidateRegex | google_test/gtest/googletest/src/gtest-port.cc:796-847 | true if and only if the pattern is the written form of a regular expression |
| SimpleRegex.AtomIsExact | google_test/gtest/googletest/src/gtest-port.cc:755-785 | which characters each atom matches, by character: the dot all but a newline, the classes and their complements by lists, control escapes by code, all others themselves |
| SimpleRegex.EscapesAreExact | google_test/gtest/googletest/src/gtest-port.cc:749-751 | the escapes are those of a list of characters |
| SimpleRegex.AcceptsExactlyRenderings | google_test/gtest/googletest/src/gtest-port.cc:802-846 | the scan accepts exactly the written forms of regular expressions |
| SimpleRegex.ReadBack | google_test/gtest/googletest/src/gtest-port.cc:802-846 | every accepted pattern can be parsed |
| SimpleRegex.RenderIsUnambiguous | google_test/gtest/googletest/src/gtest-port.cc:796-904 | no pattern is the written form of two regular expressions |
| SimpleRegex.FirstItem | google_test/gtest/googletest/src/gtest-port.cc:849-875 | a match at the head is a split between the first item and the others |
| SimpleRegex.RepetitionExhausted | google_test/gtest/googletest/src/gtest-port.cc:863-874 | when no admissible count leaves a match and the atom matches no further character, there is no match at all |
| SimpleRegex.MatchRepetitionAndRegexAtHead | google_test/gtest/googletest/src/gtest-port.cc:856-875 | true if and only if a repetition of the atom followed by the rest matches a prefix; no read beyond the NULs |
| SimpleRegex.MatchRegexAtHead | google_test/gtest/googletest/src/gtest-port.cc:880-904 | true if and only if the pattern matches a prefix, or the whole string with an end anchor |
| SimpleRegex.MatchRegexAnywhere | google_test/gtest/googletest/src/gtest-port.cc:914-924 | true if and only if some substring that respects the anchors is in the language of the pattern |
| SimpleRegex.OneAtomMatches | google_test/gtest/googletest/src/gtest-port.cc:914-924 | a pattern of one atom matches exactly the strings that hold one of its characters |
| SimpleRegex.RE.Init | google_test/gtest/googletest/src/gtest-port.cc:942-969 | the object is valid if and only if the pattern is the written form of a regular expression, and its full pattern is then the written form of the anchored one, and empty otherwise |
| SimpleRegex.AddAnchors | google_test/gtest/googletest/src/gtest-port.cc:956-968 | turns the written form of an expression into that of the anchored expression |
| SimpleRegex.RE.PartialMatch | google_test/gtest/googletest/src/gtest-port.cc:937-939 | true if and only if the pattern is valid and matches a substring |
| SimpleRegex.RE.FullMatch | google_test/gtest/googletest/src/gtest-port.cc:931-933 | true if and only if the pattern is valid and the entire string is in its language; only a prefix of it when the pattern ends in an escaped dollar sign |
| SimpleRegex.FullPatternIsRendering | google_test/gtest/googletest/src/gtest-port.cc:956-968 | the anchors added by looking at the first and last characters are those of the anchored expression, but for the end anchor after an escaped dollar sign |
| SimpleRegex.FullMatchIsExact | google_test/gtest/googletest/src/gtest-port.cc:930-933 | full matching is membership of the entire string, for all strings, if and only if the pattern does not end in an escaped dollar sign |
| Base64.Base64Encode | src/websocket_handler.cpp:134-150 | on fewer than 2^32 octets the output is the base64 encoding of section 4 of RFC 4648; on more the counter wraps around and there is no output |
| Base64.B64 | src/websocket_handler.cpp:163-205 | the output is the same encoding, on every octet sequence |
| Base64.EncodedLength | src/websocket_handler.cpp:134-150 | the encoding has 4 * ceil(n / 3) characters |
| Base64.QuartetByMasks | src/websocket_handler.cpp:142-147 | the masks and shifts, with or or plus, give the four 6-bit groups of a 24-bit number |
| Base64.CounterPassesLength | src/websocket_handler.cpp:137-137 | the 32-bit counter ever passes the length if and only if the length is below 2^32 |
| Base64.FourSextets | src/websocket_handler.cpp:190-195 | the accumulator of three octets is turned into its four 6-bit groups |
| Base64.LastGroup | src/websocket_handler.cpp:186-202 | the tail of one or two octets completes the encoding |
| Base64.TableInvertsAlphabet | google_test/gtest/googlemock/src/gmock-internal-utils.cc:206-226 | the decoding table takes every symbol back to its value |
| Base64.TableIsExact | google_test/gtest/googlemock/src/gmock-internal-utils.cc:202-226 | the decoding table by character code: 62 for + and -, 63 for / and _, 65 for all that are no letters or digits; white space is the six codes 9 to 13 and 32 |
| Base64.Base64Unescape | google_test/gtest/googlemock/src/gmock-internal-utils.cc:228-254 | true if and only if every significant character is a base64 symbol, and then the octets its 6-bit groups fill; otherwise nothing |
| Base64.DestinationBits | google_test/gtest/googlemock/src/gmock-internal-utils.cc:243-251 | the pending octet and the shifts complete the next octet and keep the remaining bits |
| Base64.EncodedSextets | google_test/gtest/googlemock/src/gmock-internal-utils.cc:234-242 | the decoder reads from an encoding the 6-bit groups of the data |
| Base64.GroupsRoundTrip | google_test/gtest/googlemock/src/gmock-internal-utils.cc:228-254 | the octets filled by the 6-bit groups of data are the data |
| Base64.DecodeInvertsEncode | google_test/gtest/googlemock/src/gmock-internal-utils.cc:202-254 | a text is read as the groups of an encoding if and only if it differs from it in white space, padding and web-safe characters only, and then decoding gives the encoded data |
| Base64.UrlRoundTrip | google_test/gtest/googlemock/src/gmock-internal-utils.cc:202-254 | data encoded over the alphabet of section 5 of RFC 4648, with any padding, is decoded |
| WebSocketFrames.SendFrame | src/websocket_handler.cpp:105-130 | sends the unmasked text frame of section 5.2 of RFC 6455, in all three length encodings |
| WebSocketFrames.FrameHeader | src/websocket_handler.cpp:105-111 | a sent frame starts with FIN set, no reserved bits, opcode 1, and no mask bit |
| WebSocketFrames.ReadFrame | src/websocket_handler.cpp:16-92 | returns the message and consumes the octets that the stream function says, whatever the payload chunks of recv; when a header arrives in parts, returns nothing and loses at most 13 octets |
| WebSocketFrames.ReadLength | src/websocket_handler.cpp:32-53 | the 7-bit, 16-bit or 64-bit payload length, when the stream has it; fails on one that arrives in parts, losing its first octets |
| WebSocketFrames.ReadOctets | src/websocket_handler.cpp:64-75 | the payload in any positive chunks; fails if and only if the stream is shorter |
| WebSocketFrames.Unmask | src/websocket_handler.cpp:77-82 | every payload octet is xor-ed with the key octet of its index modulo 4 |
| WebSocketFrames.MaskedBits | src/websocket_handler.cpp:77-82 | masking turns over exactly the bits set in that key octet |
| WebSocketFrames.ReadBody | src/websocket_handler.cpp:55-91 | masking key, payload and opcode: the message is empty when something is missing or the frame is not text; fails on a key that arrives in parts |
| WebSocketFrames.HeaderRead | src/websocket_handler.cpp:26-53 | the reader finds in a written header the length that was written, masked or not |
| WebSocketFrames.LengthRoundTrip | src/websocket_handler.cpp:109-123 | every length below 2^64 is read back from its encoding |
| WebSocketFrames.FrameRoundTrip | src/websocket_handler.cpp:16-130 | reading takes exactly the octets of a sent frame and returns its message |
| WebSocketFrames.OtherFramesAreDropped | src/websocket_handler.cpp:84-91 | of an unmasked frame with any other opcode all octets are consumed and nothing is returned |
| WebSocketFrames.ClientFrameRoundTrip | src/websocket_handler.cpp:55-91 | the same for a text frame masked under any key, as in section 5.3 of RFC 6455 |
| WebSocketFrames.FramesRoundTrip | src/websocket_handler.cpp:16-130 | any list of messages is read back from the concatenation of its frames, and exactly those octets are consumed |
| WebSocketFrames.ClientFramesRoundTrip | src/websocket_handler.cpp:16-92 | the same for masked client frames, each under its own key |
| Handshake.WholeKeyIsHashed | src/websocket_handler.cpp:207-211 | the whole challenge with the GUID is hashed if and only if it is shorter than 2^32 octets; the accept key has 28 characters |
| Handshake.HashKey | src/websocket_handler.cpp:207-213 | the five words are the SHA-1 digest of the challenge followed by the GUID |
| Handshake.DigestInNetworkOrder | src/websocket_handler.cpp:214-217 | the words in network order are the 20 octets of the digest |
| Handshake.GetAcceptKey | src/websocket_handler.cpp:207-218 | the accept key is the base64 encoding of the SHA-1 digest, as in section 4.2.2 of RFC 6455 |
| Handshake.AcceptKeyCarriesDigest | src/websocket_handler.cpp:207-218 | decoding the accept key gives the digest back |
| Handshake.MagicIsGuid | src/websocket_handler.cpp:13-13 | the text appended to a challenge is the GUID of section 1.3 of RFC 6455, group by group as numbers |
| Handshake.AsciiOctets | src/websocket_handler.cpp:207-209 | texts become octets by their codes |
| Handshake.FindWebsocketKey | src/websocket_handler.cpp:220-227 | the value of the first header whose name is, letter by letter in either case, that of the key, or nothing |
| Handshake.LowerCased | includes/string_utils.h:21-26 | exactly the 26 capital letters become small ones |
| Handshake.NamedKey | includes/string_utils.h:21-26 | the lowered name is that of the key if and only if every character is that of the name in lower or upper case |
| Handshake.UsualNameNamesKey | src/websocket_handler.cpp:222-223 | the spelling that browsers use is found |
| Handshake.OneKeyIff | src/websocket_handler.cpp:220-227 | the headers that name the key agree if and only if some value is that of all of them |
| Handshake.KeyIsFound | src/websocket_handler.cpp:220-227 | the key is the value of any header that names it, when all that do agree |
| Handshake.KeyIgnoresOrder | src/websocket_handler.cpp:220-227 | the order in which the map yields the headers makes no difference when those that name the key have one value |
| Handshake.ResponseText | src/websocket_handler.cpp:259-268 | the four lines of the reply and a blank line |
| Handshake.ResponseEndsAtBlankLine | src/websocket_handler.cpp:263-268 | the first blank line of the reply is its end, so a client can tell it from the frames that follow |
| BroadcastRuns.Manager.constructor | includes/websocket_handler.h:8-11 | no descriptor is registered |
| BroadcastRuns.Manager.AddNewConnection | src/websocket_handler.cpp:252-272 | one connect step with the key of the headers: without a key nothing happens; when some header names the key with a value and all that name it agree, the descriptor is sent the response to that value and is registered |
| BroadcastRuns.Manager.NotifyMessageRequest | src/websocket_handler.cpp:274-295 | one notify step: an unregistered descriptor is ignored, otherwise one frame is read from it, or the start of a header that arrives in parts, and what was read is announced to every registered descriptor; no other stream changes |
| BroadcastRuns.Manager.ReadAnnouncement | src/websocket_handler.cpp:286-287 | the announcement names the descriptor and carries the message read |
| BroadcastRuns.AnnouncementIsUnambiguous | src/websocket_handler.cpp:287-287 | an announcement determines the descriptor it came from and the text |
| BroadcastRuns.Manager.Broadcast | src/websocket_handler.cpp:288-291 | exactly the registered descriptors are sent the frame, once each, in ascending order |
| BroadcastRuns.MembersJoined | src/websocket_handler.cpp:252-272 | in every run the registered descriptors are those that shook hands with a key |
| BroadcastRuns.RunsCompose | src/websocket_handler.cpp:252-295 | runs and their logs can be cut at any event |
| BroadcastRuns.SilentUntilJoined | src/websocket_handler.cpp:274-293 | nothing is sent to a descriptor before it joins |
| BroadcastRuns.StepOutput | src/websocket_handler.cpp:274-293 | one event sends a registered descriptor exactly the frames of what is announced |
| BroadcastRuns.MemberReceivesAll | src/websocket_handler.cpp:274-293 | over any run a registered descriptor is sent exactly the frames of all announcements, in order |
| BroadcastRuns.ClientTranscript | src/websocket_handler.cpp:252-293 | all that is ever sent to a client is one response, then the frames of the announcements since it joined |
| BroadcastRuns.ClientHears | src/websocket_handler.cpp:105-130 | decoding what follows the response gives exactly those announcements and consumes everything |
| BroadcastRuns.ClientsAgree | src/websocket_handler.cpp:252-293 | what a later client hears is a suffix of what an earlier one hears, and both are suffixes of the announcements of one log |
| BroadcastRuns.LogKeepsOrder | src/websocket_handler.cpp:286-291 | the log holds what each client sends whose headers arrive whole, in order and without gaps, and the rest is still unread |
| BroadcastRuns.MessagesReachTheLog | src/websocket_handler.cpp:274-293 | of a client that sends masked frames, and whose headers arrive whole, the log says exactly its first messages, whatever the keys |
| Decimal.NumeralValue | google_test/gtest/googletest/src/gtest-printers.cc:291-323 | a numeral has the value it is written for, and no leading zero |
| Decimal.SignedNumeralIsUnambiguous | google_test/gtest/googletest/src/gtest-printers.cc:324-331 | different numbers have different signed numerals |
| UInt128Printer.DivisionStep | google_test/gtest/googletest/src/gtest-printers.cc:309-317 | one step divides the 128-bit value by ten with the right remainder, and no 64-bit intermediate overflows |
| UInt128Printer.WrappedStep | google_test/gtest/googletest/src/gtest-printers.cc:309-317 | the same for the wrapping 64-bit operations |
| UInt128Printer.LowHalfIsTight | google_test/gtest/googletest/src/gtest-printers.cc:317-317 | the new low half can be 2^64 - 1, so the bound has no slack |
| UInt128Printer.PrintUInt128 | google_test/gtest/googletest/src/gtest-printers.cc:291-323 | prints the decimal numeral of every value below 2^128, inside the buffer of 40 characters |
| UInt128Printer.PrintInt128 | google_test/gtest/googletest/src/gtest-printers.cc:324-331 | prints the signed numeral of every value, the smallest included |
| Utf8Validator.IsValidUTF8 | google_test/gtest/googletest/src/gtest-printers.cc:483-514 | true if and only if the octets are the encodings of Unicode scalar values by section 3 of RFC 3629; every read is in bounds |
| Utf8Validator.DecodedIsEncoded | google_test/gtest/googletest/src/gtest-printers.cc:486-511 | what is taken for one character is the encoding of a scalar value: no overlong form, no surrogate, nothing above U+10FFFF |
| Utf8Validator.EncodedIsTaken | google_test/gtest/googletest/src/gtest-printers.cc:486-511 | the encoding of every scalar value is taken for one character, whatever follows |
| Utf8Validator.EncodingIsUnique | google_test/gtest/googletest/src/gtest-printers.cc:483-514 | the scalar values are determined by the octets |
| StringLiteralPrinter.PrintCharsAsString | google_test/gtest/googletest/src/gtest-printers.cc:338-363 | prints the literal of the string, split after a hex escape that a hex digit follows, and reports whether one was needed |
| StringLiteralPrinter.PrintedForms | google_test/gtest/googletest/src/gtest-printers.cc:151-211 | by code, which characters are printed with a letter, as they are, and in upper-case hexadecimal |
| StringLiteralPrinter.XDigits | google_test/gtest/googletest/src/gtest-printers.cc:349-354 | the hexadecimal digits before which a literal is split are the 22 of both cases, each with its value |
| StringLiteralPrinter.PieceIsRead | google_test/gtest/googletest/src/gtest-printers.cc:151-211 | every character but NUL is read back from its text as itself |
| StringLiteralPrinter.NulIsRead | google_test/gtest/googletest/src/gtest-printers.cc:154-156 | a NUL is read together with up to two octal digits after it |
| StringLiteralPrinter.BreakIsRead | google_test/gtest/googletest/src/gtest-printers.cc:349-354 | ending one literal and starting the next adds no character |
| StringLiteralPrinter.BodyIsRead | google_test/gtest/googletest/src/gtest-printers.cc:338-363 | for every string, the reader gets the string with each NUL merged with the octal digits after it |
| StringLiteralPrinter.CollapseShortens | google_test/gtest/googletest/src/gtest-printers.cc:154-156 | merging changes a string if and only if a NUL stands before an octal digit |
| StringLiteralPrinter.PrintedTextRoundTrip | google_test/gtest/googletest/src/gtest-printers.cc:338-363 | the printed text reads back as the original if and only if no NUL stands before an octal digit |
| PrimeTables.OnTheFlyPrimeTable.IsPrime | google_test/gtest/googletest/samples/prime_tables.h:55-64 | true if and only if the number is prime |
| PrimeTables.OnTheFlyPrimeTable.GetNextPrime | google_test/gtest/googletest/samples/prime_tables.h:66-72 | the smallest larger prime, or -1 for negative arguments; the unbounded search ends |
| PrimeTables.LargerPrime | google_test/gtest/googletest/samples/prime_tables.h:69-71 | every number has a larger prime |
| PrimeTables.SquareRootSuffices | google_test/gtest/googletest/samples/prime_tables.h:58-61 | a number without factors up to its square root has none |
| PrimeTables.PreCalculatedPrimeTable.constructor | google_test/gtest/googletest/samples/prime_tables.h:80-84 | for every maximum the table has the right size; it is built inside its array if and only if the maximum is at least 1, and then tells the primes from the other numbers |
| PrimeTables.PreCalculatedPrimeTable.CalculatePrimesUpTo | google_test/gtest/googletest/samples/prime_tables.h:100-116 | stays inside the array if and only if the maximum is at least 1, and then marks exactly the primes, with candidates 2, 3, 5, 7, ... up to the square root |
| PrimeTables.PreCalculatedPrimeTable.StrikeOut | google_test/gtest/googletest/samples/prime_tables.h:109-115 | after striking out from the square on, exactly the numbers with a factor up to the candidate are out |
| PrimeTables.PreCalculatedPrimeTable.SkipEven | google_test/gtest/googletest/samples/prime_tables.h:104-106 | skipping the even candidates above 2 loses nothing |
| PrimeTables.FactorsUpTo | google_test/gtest/googletest/samples/prime_tables.h:109-112 | multiples of a prime below its square are struck out already |
| PrimeTables.NoNewFactors | google_test/gtest/googletest/samples/prime_tables.h:108-108 | composite candidates can be skipped |
| PrimeTables.PreCalculatedPrimeTable.IsPrime | google_test/gtest/googletest/samples/prime_tables.h:87-89 | true if and only if the number is a prime within the table |
| PrimeTables.PreCalculatedPrimeTable.GetNextPrime | google_test/gtest/googletest/samples/prime_tables.h:91-97 | the next prime, or -1 if and only if the table has none left; no answer for arguments below -1, which read before the array |
| PrimeTables.HybridPrimeTable.constructor | google_test/gtest/googletest/samples/sample8_unittest.cc:50-55 | there is a table up to the maximum unless it is forced off; the result is sound if and only if it is forced off or the maximum is at least 1 |
| PrimeTables.HybridPrimeTable.IsPrime | google_test/gtest/googletest/samples/sample8_unittest.cc:61-66 | true if and only if the number is prime, with or without a table |
| PrimeTables.HybridPrimeTable.GetNextPrime | google_test/gtest/googletest/samples/sample8_unittest.cc:68-74 | the answer of the table where it has one, and otherwise that of trial division; no answer where the table reads before its array |
| PrimeTables.HybridAgrees | google_test/gtest/googletest/samples/sample8_unittest.cc:68-74 | for every integer p: agreement with trial division if and only if there is no table, or p >= 0, or p is not below the maximum, or p = -1 and the table holds no prime; what it answers otherwise |
| Shuffle.Random.Generate | google_test/gtest/googletest/src/gtest.cc:400-414 | a number in the range, drawn by one congruential step |
| RandomPeriod.SuccessorsAdvance | google_test/gtest/googletest/src/gtest.cc:403-403 | the successors of two neighbouring states are 1103515245 apart modulo 2^31, and that of 0 is 12345 |
| RandomPeriod.GeometricHalves | google_test/gtest/googletest/src/gtest.cc:403-403 | 1 + a + ... + a^(n - 1) is divisible by exactly the powers of two that divide n, when a is one more than a multiple of 4 |
| RandomPeriod.Period | google_test/gtest/googletest/src/gtest.cc:400-403 | a state comes back after n draws if and only if n is a multiple of 2^31 |
| RandomPeriod.StatesDiffer | google_test/gtest/googletest/src/gtest.cc:400-403 | after any seed, two draws leave the same state exactly when they are a multiple of 2^31 apart |
| RandomPeriod.EveryStateIsReached | google_test/gtest/googletest/include/gtest/internal/gtest-internal.h:850-868 | from any seed, 2^31 draws of the widest range give every number of it exactly once |
| Shuffle.ShuffleRange | google_test/gtest/googletest/src/gtest-internal-inl.h:303-324 | shuffles the range in place by the choices of the generator; refuses exactly the ranges that are not in the vector, changing nothing |
| Shuffle.ShuffleAll | google_test/gtest/googletest/src/gtest-internal-inl.h:326-330 | shuffles all elements by the choices of the generator, and loses none |
| Shuffle.OnlyRangeMoves | google_test/gtest/googletest/src/gtest-internal-inl.h:299-324 | whatever is chosen, the elements of the range are permuted, all others stay, and the first choice decides the last place |
| Shuffle.ChoicesDetermined | google_test/gtest/googletest/src/gtest-internal-inl.h:314-323 | different choices order distinct elements differently |
| Shuffle.EveryOrderingIsReached | google_test/gtest/googletest/src/gtest-internal-inl.h:314-323 | every ordering of the range is the result of some choices, also with repeated elements |
| Shuffle.ChoicesCount | google_test/gtest/googletest/src/gtest-internal-inl.h:316-320 | there are w! choice sequences for a range of width w |
| Shuffle.OrderingsAreResults | google_test/gtest/googletest/src/gtest-internal-inl.h:314-323 | for distinct elements the results of the w! choice sequences are all different, and are exactly the orderings of the range |
| Shuffle.OneChoicePerOrdering | google_test/gtest/googletest/src/gtest-internal-inl.h:326-330 | for a vector without repeated elements, every ordering is the result of exactly one choice sequence |
| Shuffle.ShuffleSuites | google_test/gtest/googletest/src/gtest.cc:6264-6269 | both ranges are shuffled, one after the other, by the choices of the generator: the death test suites keep the first places, the others the rest |
| Shuffle.ShuffleTests | google_test/gtest/googletest/src/gtest.cc:6261-6275 | the same, and then the tests of every suite are shuffled among themselves by the next choices |
| Shuffle.ShuffleInside | google_test/gtest/googletest/src/gtest.cc:6271-6274 | the tests of each suite in turn are shuffled by the choices made from the state its predecessors left |

## Left out

- The division of long functions: some of their loops and blocks are methods of their own here (`MatchedPairs` of `Compute`; `StoreOctet` and `CountOctet` of `Input`; `WordSequence`, `FirstRounds`, `LastRounds` and `AddToChain` of `ProcessMessageBlock`; `FillWithZeros` and `StoreLength` of `PadMessage`; `FourSextets`, `AppendSymbols` and `LastGroup` of `b64`; `ReadLength`, `ReadOctets`, `Unmask` and `ReadBody` of `read_frame`; `AddAnchors` of `RE::Init`; `StrikeOut` of the sieve; `HashKey`, `ReadAnnouncement`, `Broadcast`; `ShuffleSuites` and `ShuffleInside` of `ShuffleTests`), all with full contracts.
- Sockets, epoll, threads, file reading and logging: a connection is its stream of octets to come and its stream of octets sent. `recv` gets any positive part of what it asks for, headers included, and `send` takes everything.
- `is_websocket` and the HTTP layer: the headers of a handshake are given as a sequence, in the order in which their map yields them.
- PrimeTables: `int` is a mathematical integer, so the squares of candidates do not overflow. What happens after an access outside the array is not modelled: there is no answer, and a table that was not built inside its array is not asked.
- Expectations.ExpectationBase.IncrementCallCount: call counts are not bounded by `int`.
- Expectations: cardinalities are intervals of call counts; actions, argument matchers, descriptions and locks are not modelled. Prerequisite graphs with cycles, on which the two queries may not end, are not modelled.
- BipartiteMatching.EdgesAreSet: the matrix is a value here, and setting an edge gives another one; `NextGraph` and `Randomize`, which only tests use, are not modelled.
- BipartiteMatching: explanations for listeners are not modelled, only the verdicts.
- SimpleRegex: failures reported to the test runner are not modelled; strings are shorter than the largest `size_t`, as the comment on the matcher demands.
- Base64.Base64Unescape: characters are octets; the index of a negative `char` into the decoding table is not modelled.
- Handshake.GetAcceptKey: the memory of the five words after `htonl` is given as their octets, most significant first.
- Sha1: the overloads of `Input` and the stream operators only forward to the method that is modelled.
- StringLiteralPrinter: only narrow strings; the read of the first character of an empty range, which only selects the overload of a prefix, is not modelled.
- Shuffle.Random.Generate: ranges of 0 and beyond 2^31 abort the program in the source and are not asked for here.
- Shuffle.ShuffleRange: a range outside the vector aborts the program in the source and is refused here.
- Allocation never fails.
- `src/base/simple_server_sha1.cpp` and the files under `experiments/` hold further copies of the code modelled here.
