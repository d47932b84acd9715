# A verified model of the surrogate gateway

The gateway replaces personal identifiers in a chat request by surrogates, forwards the
request to an upstream model, and turns the surrogates in the (streamed) response back
into the real values. This project models the four parts that carry that promise and
proves how they fit together:

- **Surrogate engine.** FF1 of NIST SP 800-38G (section 5.1, Algorithms 7 and 8) over an
  arbitrary block function, the mixed-radix code, the cycle-walk, the check-digit schemes
  and the six identifier domains (`MixedRadix`, `Feistel`, `Ff1`, `CycleWalk`,
  `MixedRadixFf1`, `ConstantCipher`, `CapExample`, `Checksum`, `DigitDomains`, `Layouts`,
  `MixedDomains`, `Engine`). What it computes is then said again without its own helper
  functions: FF1 byte by byte (`Ff1Standard`), the check sums (`CheckDigits`), and when each
  type encrypts and to what (`EngineCoverage`, `MixedCoverage`).
- **Response path.** The substitution of surrogates, the sliding window, the event-stream
  parser, the content-slot rule and the stream generator (`Substitution`, `SlidingWindow`,
  `ChunkIndependence`, `SseFraming`, `Json`, `ChatStream`, `GenerateSse`, `Fragmentation`,
  `Rehydrate`); which wire forms are events, where their text is, and which envelope carries
  which text (`WireForms`, `ContentSlots`, `StreamFrames`).
- **Request path.** Overlap resolution, the cascade, the right-to-left splice, the field
  walker and whole request bodies (`StableSort`, `Precedence`, `Cascade`, `Sanitize`,
  `FieldWalker`, `Rewalk`, `RequestBody`); where the regions of a body are, what becomes of
  each, and where each surrogate comes from (`WalkPaths`, `BodyCoverage`, `Minting`).
- **Session state.** The name map, the session store and its interleavings (`Session`,
  `SessionStore`, `StoreConcurrency`, `SessionInvariant`).

`LeadingZero` and `CodecExample` hold an example of a lost number and of a codec.

`RoundTrip` and `SanitizeRoundTrip` join them: `SanitizeRoundTrip.Exchange.EchoRoundTrip`
says that a client whose sanitized text is streamed back, cut into events and network
fragments in any way, reads the text it sent, and `RequestBody.BodyExchange.RestoresBody`
says the same of a whole JSON body, leaf by leaf.

Objects the program updates in place are classes here (`Session`, `Store`, `Window`,
`LineSplitter`, `SSEEventParser`); each of their methods is tied to a function of the old
state, and the properties are proved of those functions. Loops are loops. The rest is
functions on values.

What the proofs show about the program beyond its own documentation:

- For surrogates that keep apart from each other and are not comparable with what they
  stand for, the window is independent of how the text is cut exactly when its lookahead is
  at least the longest surrogate minus one and no real value meets a surrogate within the
  lookahead (`ChunkIndependence.ExactlyWhenApart`).
- For any surrogates, whatever real values that do not meet them they stand for, it is so
  exactly when no surrogate occurs in another one ending before it, at such a lookahead
  (`ExactlyWhen`). Partial overlaps are harmless; "Priya Khan" and "Priya Khanna" are not
  (`KhanKhannaBreaks`).
- The original text comes back if and only if it contains no surrogate the session knows
  later (`RoundTripExactly`), when the surrogates minted for it are matched in the text sent
  and none is comparable with what it stands for.
- A domain gives a value back only if its check digit is right, and a vehicle mark only
  if it does not end in a newline: the `$` of its pattern accepts one and drops it.
- Luhn misses exactly the 09/90 transposition.
- The 1000-step cap of the cycle-walk can be hit: over a constant block function the PAN
  ZZZPZ2272M cannot be encrypted (`CapExample.CapCanBeHit`).
  `MixedRadixFf1.CombinedConverges` says when encryption returns in terms of the walk; only
  `SmallGapConverges` can be checked without walking.
- A domain with at most two values cannot be encrypted: it is covered by one bit and FF1
  refuses one digit (`TinyDomainRefused`).
- A malformed event ends the stream and with it the rest of its own network fragment. What
  is consumed depends on the fragmentation exactly when something after the malformed event
  could be flushed as a delta (`Fragmentation.FragmentationIrrelevant`, with the two
  fragmentations of one text in `MalformedThenDelta`).
- A sanitized body is restored exactly when no sanitized text is a JSON container at an
  `arguments` path (`RestoresBody`). `[012345678901]` is not JSON, but the list of its
  surrogate can be (`LeadingZeroIsLost`, and an instance in `ValidNumberIsLost`).

## Model

| member | source | states |
|---|---|---|
| `MixedRadix.EncodeLoop` | src/surrogate/mixed_radix.py:33-48 | the loop computes the positional value; unequal lengths are a ValueError |
| `MixedRadix.DecodeLoop` | src/surrogate/mixed_radix.py:51-67 | the in-place loop computes the digits, and encoding them gives the value back when it is in the domain |
| `MixedRadix.DomainSizeLoop` | src/surrogate/mixed_radix.py:70-78 | the loop computes the number of values |
| `MixedRadix.EncodeBelowSize` | src/surrogate/mixed_radix.py:33-48 | an encoded value is below the domain size |
| `MixedRadix.DecodeInRange` | src/surrogate/mixed_radix.py:51-67 | every decoded symbol is below its radix |
| `MixedRadix.DecodeEncode` | src/surrogate/mixed_radix.py:33-67 | decoding an encoding gives the symbols back |
| `MixedRadix.EncodeDecodeMod` | src/surrogate/mixed_radix.py:33-67 | encoding a decoding reduces any value modulo the domain size |
| `MixedRadix.EncodeDecode` | src/surrogate/mixed_radix.py:33-67 | it gives the value back if and only if the value is in the domain |
| `Feistel.NumRadix` | src/surrogate/ff1.py:130-136 | the loop computes NUM_radix |
| `Feistel.StrMRadix` | src/surrogate/ff1.py:139-146 | the loop computes STR of the given width |
| `Feistel.Network.ForwardShape` | src/surrogate/ff1.py:52-67 | after k rounds the halves are in range and their widths have alternated k times |
| `Feistel.Network.BackwardForward` | src/surrogate/ff1.py:44-100 | k rounds back undo k rounds forward, for any round function, radix and widths |
| `Feistel.Network.ForwardBackward` | src/surrogate/ff1.py:44-100 | k rounds forward undo k rounds back |
| `Feistel.Network.RunInverse` | src/surrogate/ff1.py:44-100 | on whole digit strings, for an even number of rounds: length and range kept, each direction the inverse of the other |
| `Feistel.RunRounds` | src/surrogate/ff1.py:57-67 | the loop that swaps the halves performs the rounds |
| `Feistel.RunRoundsBack` | src/surrogate/ff1.py:84-94 | the descending loop performs the inverse rounds |
| `Ff1.CeilLog2` | src/surrogate/ff1.py:117-127 | the least k with 2^k at least x |
| `Ff1.FeistelParams` | src/surrogate/ff1.py:117-127 | the halves add up and differ by at most one; d exceeds b by at least four |
| `Ff1.HalfFits` | src/surrogate/ff1.py:117-136 | the value of either half is below 256^b, so writing it in b bytes never overflows |
| `Ff1.StreamWidth` | src/surrogate/ff1.py:117-127 | 256^d is at least 2^32 times radix^m |
| `Ff1.StreamLengthBound` | src/surrogate/ff1.py:183-194 | d is small enough for the block counter |
| `Ff1.BuildP` | src/surrogate/ff1.py:149-161 | P is 16 bytes for every legal input |
| `Ff1.BuildQ` | src/surrogate/ff1.py:164-171 | Q is a nonempty multiple of 16 bytes |
| `Ff1.MacInput` | src/surrogate/ff1.py:149-180 | P followed by Q is always a legal input of the chained cipher |
| `Ff1.MacInputInjective` | src/surrogate/ff1.py:149-171 | equal P and Q come from equal tweak, radix, length, round and half |
| `Ff1.GenerateS` | src/surrogate/ff1.py:183-194 | the loop ends with exactly the first d bytes of the counter stream |
| `Ff1.Check` | src/surrogate/ff1.py:103-114 | accepts exactly the legal radix, length and tweak length |
| `Ff1.Permutation` | src/surrogate/ff1.py:44-100 | succeeds exactly on legal parameters; keeps length and digit range; each direction undoes the other |
| `Ff1.FF1Encrypt` | src/surrogate/ff1.py:44-67 | the loop form is the permutation |
| `Ff1.FF1Decrypt` | src/surrogate/ff1.py:70-100 | the loop form is the inverse permutation |
| `Ff1Standard.PrfIsChain` | src/surrogate/ff1.py:174-180 | for every list of blocks that starts with zeros and goes on with the cipher of the exclusive or with the next sixteen bytes, the pseudorandom function is its last block |
| `Ff1Standard.StreamIs` | src/surrogate/ff1.py:183-194 | S is R and then, byte by byte, the cipher of R xor the counter |
| `Ff1Standard.InputIs` | src/surrogate/ff1.py:149-171 | P and Q are the only bytes with the prescribed fields at the prescribed places |
| `Ff1Standard.EncryptIsFF1` | src/surrogate/ff1.py:44-67 | encryption succeeds exactly for radix 2 to 65536, two or more digits and a tweak that fits; then there are ten rounds in which A becomes A plus the number of the first d bytes of the stream over P and Q, modulo radix^m, and any such ten rounds end in the result |
| `CycleWalk.WalkLoop` | src/surrogate/mixed_radix_ff1.py:82-101 | the bounded loop is the walk; None where it raises after the cap |
| `CycleWalk.WalkReturns` | src/surrogate/mixed_radix_ff1.py:82-101 | a walk that returns lands in the domain for the first time, within the cap |
| `CycleWalk.WalkSucceeds` | src/surrogate/mixed_radix_ff1.py:82-101 | it returns if and only if some step within the cap lands |
| `CycleWalk.LandsBack` | src/surrogate/mixed_radix_ff1.py:82-101 | if k steps of a permutation land first at r, k steps of its inverse land first, from r, at the start |
| `CycleWalk.WalkInverse` | src/surrogate/mixed_radix_ff1.py:82-101 | so walking the inverse undoes every walk that returns, under the same cap |
| `CycleWalk.WalkMustReturn` | src/surrogate/mixed_radix_ff1.py:82-101 | without the cap a walk returns within n - size + 1 steps (pigeonhole on the orbit) |
| `CycleWalk.WalkConverges` | src/surrogate/mixed_radix_ff1.py:40-45 | a cap of that many steps is never reached |
| `ConstantCipher.FF1Adds` | src/surrogate/ff1.py:44-67 | over a constant block function, the ten rounds add five times one number to each half, modulo its size |
| `CapExample.CapCanBeHit` | src/surrogate/domains/pan.py:41-45 | so a legal PAN, ZZZPZ2272M, walks 1000 steps without coming back to a PAN, and its encryption raises |
| `MixedRadixFf1.CoveringTight` | src/surrogate/mixed_radix_ff1.py:75-79 | the covering power of two is at least the size and, from two values on, below twice the size |
| `MixedRadixFf1.StepsInverse` | src/surrogate/mixed_radix_ff1.py:48-79 | the two bit-level steps are inverse permutations of [0, 2^bits) |
| `MixedRadixFf1.CombinedInverse` | src/surrogate/mixed_radix_ff1.py:48-72 | whenever one direction returns, its result is in range and the other direction returns the input |
| `MixedRadixFf1.CombinedConverges` | src/surrogate/mixed_radix_ff1.py:48-101 | encryption returns if and only if FF1 accepts the covering width and the walk lands within the cap |
| `MixedRadixFf1.SmallGapConverges` | src/surrogate/mixed_radix_ff1.py:40-45 | it always returns when fewer than 1000 covering values are outside the domain |
| `MixedRadixFf1.TinyDomainRefused` | src/surrogate/mixed_radix_ff1.py:48-79 | a domain has at most two values if and only if it is covered by too few bits, and then both directions fail |
| `EngineCoverage.StepIsFF1` | src/surrogate/mixed_radix_ff1.py:48-72 | one step of a walk is FF1 in radix two on the bits of the value, written out |
| `EngineCoverage.CombinedIs` | src/surrogate/mixed_radix_ff1.py:48-101 | the result is the one symbol list, in range, whose value is the first below the domain size within 1000 steps; an error when there is none |
| `Checksum.TableIsDihedral` | src/detect/tier1/checksum.py:23-36 | the d table is the multiplication of the dihedral group of order ten |
| `Checksum.TableIsPower` | src/detect/tier1/checksum.py:38-48 | row i of the p table is the i-th power of row one, for every i modulo eight |
| `Checksum.ChecksumLoop` | src/detect/tier1/checksum.py:55-63 | the table loop computes the product in the group |
| `Checksum.VerhoeffIsValidLoop` | src/detect/tier1/checksum.py:66-79 | the loop form decides validity |
| `Checksum.VerhoeffGenerate` | src/detect/tier1/checksum.py:82-103 | the generated digit validates its payload; a payload with a non-digit is an error |
| `Checksum.VerhoeffCheckDigitUnique` | src/detect/tier1/checksum.py:66-103 | a check digit validates a payload of any length if and only if it is the generated one |
| `Checksum.VerhoeffCatchesSubstitution` | src/detect/tier1/checksum.py:66-79 | changing any one character of a valid number makes it invalid |
| `Checksum.VerhoeffCatchesTransposition` | src/detect/tier1/checksum.py:66-79 | swapping any two unequal neighbours makes it invalid |
| `Checksum.TotalLoop` | src/detect/tier1/checksum.py:106-125 | the doubling loop computes the weighted sum |
| `Checksum.LuhnIsValidLoop` | src/detect/tier1/checksum.py:106-125 | the loop form decides validity |
| `Checksum.LuhnGenerate` | src/detect/tier1/checksum.py:128-154 | the generated digit validates its payload; a payload with a non-digit is an error |
| `Checksum.LuhnCheckDigitUnique` | src/detect/tier1/checksum.py:106-154 | a check digit validates a payload if and only if it is the generated one |
| `Checksum.LuhnCatchesSubstitution` | src/detect/tier1/checksum.py:106-125 | changing any one character of a valid number makes it invalid |
| `Checksum.LuhnTransposition` | src/detect/tier1/checksum.py:106-125 | a swap of unequal neighbours goes unnoticed if and only if they are 0 and 9 |
| `CheckDigits.ValidIs` | src/detect/tier1/checksum.py:55-125 | on every string both validities are those of sums taken from the left, with the tables and the doubling rule written out |
| `CheckDigits.KnownVerhoeff` | tests/unit/test_checksum.py:20-36 | 2363 is valid; 2336, 236A and the empty string are not |
| `CheckDigits.KnownLuhn` | tests/unit/test_checksum.py:54-72 | 79927398713 is valid; 7 and the empty string are not |
| `DigitDomains.PermuteInverse` | src/surrogate/domains/aadhaar.py:38-56 | a digit payload is permuted to digits of the same length, and back |
| `DigitDomains.CheckedDomain.RoundTrip` | src/surrogate/domains/aadhaar.py:38-56 | Aadhaar: every accepted value gets a valid surrogate of its length; the payload always comes back, the value if and only if its check digit was right |
| `DigitDomains.CheckedDomain.CheckDigitUnique` | src/surrogate/domains/card.py:31-50 | Card and Aadhaar alike: the re-derived digit is the only valid one (Card: the same domain with Luhn, lengths 12 to 19) |
| `DigitDomains.SplitPrefixJoin` | src/surrogate/domains/phone.py:48-67 | prefix and core make up the value; replacing the last nine digits splits the same way |
| `DigitDomains.PhoneRoundTrip` | src/surrogate/domains/phone.py:35-67 | every accepted number keeps prefix, leading digit and length, and comes back |
| `Layouts.Layout.RebuildLoop` | src/surrogate/domains/ifsc.py:91-100 | a blank list filled position by position, frozen ones too, is the rebuilt value |
| `MixedDomains.Place` | src/surrogate/domains/pan.py:77-81 | one zip loop writes each symbol at its position and nothing else |
| `MixedDomains.PanRebuild` | src/surrogate/domains/pan.py:73-82 | from a blank list: letters, category and digits, scattered as they are, give the rebuilt value |
| `MixedDomains.IfscRebuild` | src/surrogate/domains/ifsc.py:91-100 | from a blank list: bank letters, the literal zero and branch symbols give the rebuilt value |
| `MixedDomains.StateRebuild` | src/surrogate/domains/vehicle_registration.py:103-112 | the closure's advancing index cuts the symbols into the four segments of the rebuilt value |
| `MixedDomains.BharatRebuild` | src/surrogate/domains/vehicle_registration.py:124-131 | the same for BH marks, with the literal between year and number |
| `Layouts.Layout.RebuildExtract` | src/surrogate/domains/ifsc.py:81-100 | rebuilding from a value's own symbols gives the value |
| `Layouts.Layout.ExtractRebuild` | src/surrogate/domains/ifsc.py:81-100 | a rebuilt value is accepted and yields its symbols again |
| `Layouts.Layout.RoundTrip` | src/surrogate/domains/pan.py:41-82 | the surrogate has the value's shape and frozen characters and decrypts to it |
| `MixedDomains.LayoutsWellFormed` | src/surrogate/domains/pan.py:26-33 | the free and frozen positions of PAN and IFSC partition the value |
| `MixedDomains.MarkUnique` | src/surrogate/domains/vehicle_registration.py:31-36 | no string matches two shapes: scheme and segment lengths are determined by the value |
| `MixedDomains.VehicleRoundTrip` | src/surrogate/domains/vehicle_registration.py:50-133 | the surrogate parses to the same scheme and segment lengths and decrypts to the mark without a trailing newline, so to the value if and only if it has none |
| `Engine.MaxRegisteredIsMaximum` | src/surrogate/registry.py:56-66 | 19 bounds every registered domain's surrogates and is attained |
| `Engine.RoundTrip` | src/surrogate/engine.py:23-30 | for every type and value: a surrogate is nonempty, within its type's bound, decrypts, and decrypts to the value if and only if that is canonical |
| `EngineCoverage.AadhaarIs` | src/surrogate/domains/aadhaar.py:38-56 | twelve digits, and nothing else, encrypt and decrypt: to eleven digits permuted by FF1 in radix ten under the tweak AADHAAR, and a valid Verhoeff digit |
| `EngineCoverage.CardIs` | src/surrogate/domains/card.py:31-50 | 12 to 19 digits, and nothing else: all but the last permuted under CARD, and a valid Luhn digit |
| `EngineCoverage.PhoneIs` | src/surrogate/domains/phone.py:35-67 | +91, 91, 0 or nothing before ten digits of which the first is 6 to 9, and nothing else: the last nine permuted under PHONE, the rest kept |
| `EngineCoverage.OthersHaveNone` | src/surrogate/registry.py:28-53 | UPI, e-mail and the three name types never encrypt or decrypt |
| `MixedCoverage.PanIs` | src/surrogate/domains/pan.py:41-82 | five letters, four digits, a letter, and nothing else: the PAN of the same category whose other characters are where the walk under PAN leads, or an error exactly when it leads nowhere |
| `MixedCoverage.IfscIs` | src/surrogate/domains/ifsc.py:37-100 | four letters, a zero, six letters or digits, and nothing else: the same under IFSC |
| `MixedCoverage.StateIs` | src/surrogate/domains/vehicle_registration.py:76-112 | a state-code mark, a trailing newline apart: the same under VEHICLE_REG, with district and series lengths kept |
| `MixedCoverage.BharatIs` | src/surrogate/domains/vehicle_registration.py:117-131 | a BH mark: the same, with the BH and the suffix length kept |
| `MixedCoverage.NoMark` | src/surrogate/domains/vehicle_registration.py:76-85 | nothing else is encrypted or decrypted as a mark |
| `Substitution.RegexSubIsSub` | src/pipeline/rehydrate.py:192-204 | an alternation ordered longest first is leftmost-longest matching, whatever the order among equal lengths |
| `Substitution.RealPasses` | src/pipeline/sliding_window.py:72-102 | the part of a real value the window can still hold passes through later substitutions unchanged |
| `Substitution.Absorb` | src/pipeline/sliding_window.py:72-102 | substituting an already substituted buffer together with new text is substituting once |
| `Substitution.CutSafe` | src/pipeline/sliding_window.py:72-102 | releasing a prefix that leaves every incomplete surrogate in the buffer loses nothing |
| `SlidingWindow.Window.Feed` | src/pipeline/sliding_window.py:72-102 | after flush it raises and changes nothing; else it transforms the whole buffer, releases all but the lookahead and keeps the rest |
| `SlidingWindow.Window.Flush` | src/pipeline/sliding_window.py:104-123 | releases the transformed buffer once; a second flush raises |
| `SlidingWindow.FeedRefines` | src/pipeline/sliding_window.py:72-102 | each feed keeps: released plus buffer is the substitution of all text so far, and stays so whatever comes next |
| `SlidingWindow.RunRefines` | src/pipeline/sliding_window.py:72-102 | the same after any sequence of feeds |
| `SlidingWindow.WindowRefinesSubstitution` | src/pipeline/sliding_window.py:72-123 | for every chunking, everything released is one substitution over the whole text; surrogates may partially overlap each other, and real values may hold surrogates farther from their end than the lookahead |
| `SlidingWindow.HoldsBackLookahead` | src/pipeline/sliding_window.py:72-102 | never more than the lookahead is held back, and exactly that after a feed that released something |
| `Sanitize.RequiredLookaheadIs` | src/pipeline/rehydrate.py:55-58 | the required lookahead is at least 19, bounds every candidate, and is attained |
| `ChunkIndependence.ExactlyWhenApart` | src/pipeline/sliding_window.py:72-123 | for any table whose surrogates keep apart and are not comparable with what they stand for, and any lookahead: the output is independent of the cut if and only if no surrogate is more than one character longer than the lookahead and no real value meets one within it |
| `ChunkIndependence.MeetingReal` | src/pipeline/sliding_window.py:72-102 | a real value that contains, ends in, or continues a surrogate within the lookahead makes the output depend on the cut |
| `ChunkIndependence.ExactlyWhen` | src/pipeline/rehydrate.py:29-76 | for any surrogates, over all real values that do not meet them: independent of the cut if and only if no surrogate occurs in another one ending before it and none is more than one character longer than the lookahead |
| `ChunkIndependence.ChunkIndependenceNeedsLookahead` | src/pipeline/rehydrate.py:55-76 | for any one table in which no surrogate occurs in another, the lookahead bound alone decides |
| `ChunkIndependence.LongKeyLeaks` | src/pipeline/rehydrate.py:55-76 | a longer surrogate leaks for a chunking given explicitly |
| `ChunkIndependence.KhanKhannaBreaks` | src/pipeline/rehydrate.py:30-40 | the overlap hypothesis is needed: the cut after "Khan" gives a different text |
| `SseFraming.LineSplitter.Feed` | src/proxy/sse_framing.py:47-63 | the character loop yields the completed lines and the new state |
| `SseFraming.LineSplitter.Flush` | src/proxy/sse_framing.py:65-72 | yields the pending line, if any, and empties the splitter |
| `SseFraming.SSEEventParser.Feed` | src/proxy/sse_framing.py:84-95 | events and state after a fragment |
| `SseFraming.SSEEventParser.Flush` | src/proxy/sse_framing.py:97-111 | the last line and the pending event are dispatched at the end |
| `SseFraming.SSEEventParser.Handle` | src/proxy/sse_framing.py:113-129 | lines are collected or dispatched as the data-field rules say |
| `SseFraming.ParseFeedSplit` | src/proxy/sse_framing.py:84-95 | feeding two fragments is feeding their concatenation |
| `SseFraming.ParserIsDeclarative` | src/proxy/sse_framing.py:47-129 | over any fragmentation the events are those of the text split at CRLF, LF or CR and at blank lines (sections 9.2.5 and 9.2.6 of the WHATWG HTML Standard), a pending event included |
| `WireForms.AnyWireForm` | src/proxy/sse_framing.py:48-129 | blocks of data lines with or without the space, and other lines between them, cut by CRLF, LF or CR and fragmented in any way, give one event each: the values joined; lines left over at the end are a block too |
| `WireForms.JoinIs` | src/proxy/sse_framing.py:126-129 | joining puts one newline between each two values and changes none |
| `SseFraming.ParseWire` | src/proxy/sse_framing.py:75-129 | parsing data lines written one event each gives back the list and leaves the parser fresh |
| `ChatStream.SlotRule` | src/proxy/chat_stream.py:83-121 | new content is read back exactly when the envelope has a content slot, and serializing never adds or removes one |
| `ChatStream.WithOwnContent` | src/proxy/chat_stream.py:102-121 | re-serializing an envelope with its own content changes nothing |
| `ChatStream.WithContentTwice` | src/proxy/chat_stream.py:102-121 | the last content written counts, everything else is as in the original envelope |
| `ContentSlots.SlotIs` | src/proxy/chat_stream.py:83-99 | a delta has a slot exactly when something stands at choices[0].delta.content, and its text is that if it is a string, else empty |
| `ContentSlots.WrittenIs` | src/proxy/chat_stream.py:102-121 | writing content into a delta with a slot puts it at choices[0].delta.content and leaves every other key, value and position as it was |
| `ContentSlots.EventIs` | src/proxy/chat_stream.py:51-80 | [DONE] ends the stream, an object with a choices key is a delta, anything else is malformed |
| `GenerateSse.Stream.Handle` | src/proxy/routes.py:423-441 | one delta: feeds the window or defers the structural event |
| `GenerateSse.Stream.Close` | src/proxy/routes.py:478-484 | flushes once, then the deferred event, then [DONE] |
| `GenerateSse.Stream.HandleEvents` | src/proxy/routes.py:410-441 | the events of one fragment: deltas delivered in order, ended by [DONE] or left at a malformed one |
| `GenerateSse.Stream.HandleTail` | src/proxy/routes.py:459-484 | what the parser still holds is delivered, malformed events and [DONE] skipped, and then everything is closed |
| `GenerateSse.Stream.Generate` | src/proxy/routes.py:396-484 | for any fragments, ended by [DONE], a close, a drop or a malformed event: the frames are those of the deltas consumed, and the calls the window receives are one feed per content consumed, in order, and then one flush |
| `GenerateSse.Stream.FramesShape` | src/proxy/routes.py:396-484 | content frames that all have a slot, then at most one structural event, the latest, unchanged, then one [DONE], last; the visible text is all the window released |
| `StreamFrames.FramesAre` | src/proxy/routes.py:410-484 | each delta yields at most one frame, itself but for its content, which is the text released when it was fed; the flush yields the rest in the last delta with a slot; then the last delta without one as it came, and the done marker |
| `GenerateSse.Stream.ConsumedUnbroken` | src/proxy/routes.py:396-484 | without a malformed event, the deltas before [DONE] are consumed, and without [DONE] also what the parser still holds |
| `GenerateSse.Stream.ConsumedWire` | src/proxy/routes.py:396-421 | from any text whose events carry deltas and then [DONE], printed in any style, exactly these deltas, whatever follows and however it is cut |
| `GenerateSse.Stream.ResponseShape` | src/proxy/routes.py:396-484 | the response is itself a well-formed stream whose text is what the window released |
| `GenerateSse.Stream.EndToEnd` | src/proxy/routes.py:361-484 | for any upstream fragments whatever, drops and malformed events included: a client reading the response, in any fragmentation, gets one substitution of the text of the deltas consumed |
| `GenerateSse.Stream.EndToEndDone` | src/proxy/routes.py:361-484 | so for an upstream that carries deltas and then [DONE], of all their text |
| `Fragmentation.ConsumedMeaning` | src/proxy/routes.py:396-484 | with no malformed event before [DONE], every fragmentation consumes the leading deltas of the declarative reading of the text |
| `Fragmentation.FragmentationIrrelevant` | src/proxy/routes.py:396-484 | the deltas consumed do not depend on the fragmentation of a text if and only if no malformed event precedes [DONE], or at no point after it would a flush dispatch a delta |
| `Fragmentation.DeltaAfterBroken` | src/proxy/routes.py:442-477 | they do depend on it whenever a delta event follows the malformed one |
| `Fragmentation.MalformedThenDelta` | src/proxy/routes.py:442-477 | the two fragmentations of a malformed event and a delta: one drops the delta, the other delivers it |
| `Fragmentation.EventAt` | src/proxy/sse_framing.py:84-129 | one character completes one event, the one a flush before it would have dispatched |
| `Precedence.ResolveLoop` | src/detect/precedence.py:24-84 | sorting, greedy acceptance and re-sorting compute the specification |
| `Precedence.ResolveDisjointSorted` | src/detect/precedence.py:24-84 | the result is sorted, pairwise disjoint and drawn from the detectors |
| `Precedence.DroppedForBetter` | src/detect/precedence.py:66-84 | every reported span is kept or shares a character with a kept one of a lower tier number, or of the same tier and longer, or of the same tier and length and from no later detector |
| `Precedence.GreedyIsTheKernel` | src/detect/precedence.py:76-83 | the kept set is the only one in which a span is kept exactly when no better-ranked kept span overlaps it |
| `Precedence.TierOneIndependent` | src/detect/precedence.py:66-84 | the Tier-1 part of the result is the result of the Tier-1 output alone |
| `Cascade.ResolvedInBounds` | src/detect/cascade.py:130-154 | the resolved spans are nonempty, inside the text, in order |
| `Cascade.DetectFinds` | src/detect/cascade.py:130-154 | it fails exactly when Tier 2 failed and the mode is closed; else every span found was reported by a detector of either tier and is marked exactly when its text is a known surrogate, and every reported span is found or beaten by a found one |
| `Cascade.FailOpenIsTierOnePart` | src/detect/cascade.py:130-147 | after a Tier-2 failure, closed raises and open yields exactly the Tier-1 part of the full result |
| `Session.Session.TouchIfAlive` | src/session/session.py:65-99 | alive if and only if now minus the last access is at most the ttl; then the last access becomes now; nothing else changes |
| `Session.Session.RecordSurrogate` | src/session/session.py:101-116 | registers the surrogate and changes nothing else |
| `Session.Session.AllocateOrLookupName` | src/session/session.py:130-229 | the mapped surrogate, or the first free candidate in shuffled order mapped both ways and registered, or an error and no change |
| `Session.RunKeeps` | src/session/session.py:101-229 | after any run of operations the maps are inverse bijections and no mapping was ever changed |
| `Session.ReachableInvariant` | src/session/session.py:194-229 | in every reachable state; and with structured types only recorded, every name-typed entry has a reverse entry |
| `Session.RecordNeedsDiscipline` | src/pipeline/rehydrate.py:167-178 | recording keeps every entry resolvable if and only if the type is structured or the string was allocated |
| `Session.AllocationOutcome` | src/session/session.py:194-229 | for any shuffle, allocation of a new value fails if and only if every candidate is taken; else it takes a free one for this value alone |
| `Session.AllocationIdempotent` | src/session/session.py:130-229 | asking again after any further operations gives the same surrogate and changes nothing |
| `SessionStore.FirstLockEffect` | src/session/store.py:111-114 | the first critical section changes no id's session |
| `SessionStore.SecondLockKeeps` | src/session/store.py:121-142 | the second one keeps ids distinct and the capacity |
| `SessionStore.SecondLockFind` | src/session/store.py:121-142 | what every id maps to afterwards: only the caller's id and the evicted head can change |
| `SessionStore.Store.GetOrCreate` | src/session/store.py:89-142 | run alone: a session last accessed within the ttl is returned with its last access now, else an empty fresh one is installed in place of the expired or the oldest |
| `SessionStore.Store.Calls` | src/session/store.py:89-142 | calls for one id, one after the other: each gets the session of the call before it when it comes within one ttl of that call, and else one not seen before |
| `StoreConcurrency.ReachableInvariant` | src/session/store.py:109-142 | in every interleaving of any number of callers: capacity kept, ids distinct, every entry and caller holds a session of its own id, least-recently-used order |
| `StoreConcurrency.EntryChange` | src/session/store.py:121-142 | an id's session changes only by a caller of that id that had found that very session, or by eviction of the least recently used |
| `StoreConcurrency.MissedAfterFailedTouch` | src/session/store.py:111-127 | over any run: a caller about to install after finding a session has, earlier in the same call, touched that very session and found it expired |
| `StoreConcurrency.ReplacedAfterFailedTouch` | src/session/store.py:111-142 | over any run: an id's session is replaced only by a caller of that id whose touch of that very object failed earlier in the same call, or it is the least recently used and pushed out of a full store |
| `StoreConcurrency.QuietRunAgreed` | src/session/store.py:109-142 | without expiry and eviction, every caller's session is the one the store has for its id |
| `StoreConcurrency.OneSessionPerId` | src/session/store.py:109-142 | so all callers of one id get the same object |
| `StoreConcurrency.TouchOutcome` | src/session/store.py:111-119 | in every run: a caller that found a session at t gets it if and only if t lies within one ttl of the last call, by any caller, that the session was handed to by a touch or at its creation; else it is about to install |
| `Rehydration.ScanIsSub` | src/pipeline/rehydrate.py:107-131 | when every surrogate resolves, the matching pass is the substitution |
| `Rehydration.RehydrateIsSub` | src/pipeline/rehydrate.py:79-131 | then rehydration raises on no text and is leftmost-longest substitution |
| `Rehydration.RehydrateOutcome` | src/pipeline/rehydrate.py:107-131 | in any session: the substitution if every surrogate matched in the text resolves, else the error of the first that does not |
| `Rehydration.RehydrateOne` | src/pipeline/rehydrate.py:167-178 | a surrogate alone: a name becomes its entry in the reverse map, or raises when there is none; anything else is decrypted |
| `Sanitize.Context.MintOne` | src/pipeline/sanitize.py:154-166 | one span's session calls: allocation for name types, encryption and recording for the others |
| `Sanitize.Context.SanitizeRegion` | src/pipeline/sanitize.py:142-181 | the descending loop leaves the session as minting last span first does and returns gap, surrogate, gap, ... in text order; None when nothing changed; the first error stops it |
| `Sanitize.SpliceStep` | src/pipeline/sanitize.py:149-168 | cutting at the original offsets is right for replacements of any length, because nothing further left has moved |
| `Sanitize.SpliceIngress` | src/pipeline/sanitize.py:151-153 | skipping an ingress span is splicing its own text |
| `Minting.RegionMints` | src/pipeline/sanitize.py:142-181 | from the last span to the first, state by state: a known surrogate stays; a name keeps its surrogate or takes the first free one of the shuffled pool of its own type; anything else is encrypted; on failure the session is left as the later spans made it |
| `SessionInvariant.MintAllKeeps` | src/pipeline/sanitize.py:142-181 | whatever is detected, failures included, the session keeps its invariant and only learns; on success each span's surrogate is backed by the map or by its cipher |
| `SessionInvariant.AfterCallsKeeps` | src/pipeline/sanitize.py:142-181 | the same after any number of calls |
| `SessionInvariant.ReachableMinted` | src/pipeline/rehydrate.py:55-58 | in every session reached by sanitizing, every surrogate resolves and fits the required lookahead, so rehydration never raises |
| `RoundTrip.SubReplaced` | src/pipeline/rehydrate.py:107-131 | if every spliced surrogate is matched as such in the replaced text, substituting there gives what substituting in the original gives |
| `RoundTrip.ApartIsExact` | src/pipeline/rehydrate.py:107-131 | surrogates that do not overlap each other are matched as such in any text |
| `Substitution.UnchangedIsFree` | src/pipeline/rehydrate.py:107-131 | when no surrogate is comparable with what it stands for, only text without surrogates is left unchanged |
| `SanitizeRoundTrip.SpliceSub` | src/pipeline/sanitize.py:149-181 | the same for the splice of any spans, ingress spans included |
| `SanitizeRoundTrip.SurrogateRestores` | src/pipeline/rehydrate.py:167-178 | a surrogate still registered under the mechanism that minted it stands for its value if and only if that value is a name or canonical |
| `SanitizeRoundTrip.SplicedBack` | src/pipeline/sanitize.py:142-181 | in any later state, rehydrating the sent text is rehydrating the original |
| `SanitizeRoundTrip.Exchange.SentIsRehydrated` | src/pipeline/sanitize.py:142-181 | the same for every reachable session, with any calls before and after |
| `SanitizeRoundTrip.Exchange.RoundTrip` | src/pipeline/rehydrate.py:79-131 | if the original holds no surrogate known later, and those minted for it are matched in the text sent, it comes back |
| `SanitizeRoundTrip.Exchange.RoundTripExactly` | src/pipeline/rehydrate.py:79-131 | with these matched and no surrogate comparable with what it stands for, it comes back if and only if it holds none |
| `SanitizeRoundTrip.Exchange.EchoRoundTrip` | src/proxy/routes.py:361-484 | streamed back through window, framing and generator in any cut, the client reads the original text |
| `SanitizeRoundTrip.BobComesBack` | src/pipeline/sanitize.py:142-181 | an instance for any cipher: the hypotheses of the round trip are met together by one name |
| `FieldWalker.WalkDistinct` | src/pipeline/field_walker.py:83-97 | walk paths are pairwise distinct at any nesting of `arguments` strings |
| `FieldWalker.WalkIsTexts` | src/pipeline/field_walker.py:83-97 | a walk yields exactly the string leaves, unwrapped strings replaced by theirs |
| `WalkPaths.WalkFollows` | src/pipeline/field_walker.py:70-97 | a walk yields a text at a path exactly when following the path from the root leads to it, through strings under an arguments key that parse as objects or arrays and through no others |
| `WalkPaths.WalkOrder` | src/pipeline/field_walker.py:83-97 | one more field or item adds its regions after those of the others, under its own key or index |
| `FieldWalker.RebuildLoop` | src/pipeline/field_walker.py:100-145 | the recursive rebuild, adding to one shared set, computes the new body and the applied paths |
| `FieldWalker.RebuildChangesTexts` | src/pipeline/field_walker.py:119-145 | substitutions for walked paths are all applied; the leaves are the old ones in order, each substituted text replaced by what a walk finds in the new one |
| `Rewalk.RebuildRewalks` | src/pipeline/field_walker.py:83-145 | walking the rebuilt body gives the same paths in the same order with exactly the substituted texts changed if and only if no new text is a JSON container at an `arguments` path |
| `FieldWalker.UntouchedIsIdentical` | src/pipeline/field_walker.py:108-145 | a value with no substitution at or below it is returned as it was, `arguments` strings byte for byte |
| `Rewalk.UnwrappedIsLost` | src/pipeline/field_walker.py:90-96 | a new text that is such a container is lost: nothing substituted for what a walk then finds brings the string back |
| `RequestBody.SanitizeBody` | src/pipeline/sanitize.py:97-111 | all regions in walk order, then one rebuild; any error and no body is returned |
| `RequestBody.RehydrateBody` | src/pipeline/rehydrate.py:134-164 | the regions that change are substituted, then one rebuild |
| `RequestBody.SanitizedKeeps` | src/pipeline/sanitize.py:97-106 | over all regions the session keeps its invariant and only learns, and only walked paths are substituted |
| `BodyCoverage.RoleIs` | src/pipeline/protocol_fields.py:86-119 | what is passed over is a text at messages[i].role that is one of the five roles, and nothing else |
| `BodyCoverage.EveryRegionIsCovered` | src/pipeline/sanitize.py:97-106 | every other region: if a span found in it is not a known surrogate, its new text is the gaps with the surrogates of all its spans; otherwise it is left alone |
| `BodyCoverage.SentBodyIsCovered` | src/pipeline/sanitize.py:97-111 | so of the whole body sent, whose leaves are the original ones with exactly these texts put in |
| `BodyCoverage.RefusedForARegion` | src/pipeline/sanitize.py:97-106 | a body is refused only when some region, reached in its turn and no role, fails detection or holds a value that cannot be given a surrogate, and with that error |
| `BodyCoverage.EveryRegionIsRehydrated` | src/pipeline/rehydrate.py:134-164 | every region is rehydrated and substituted exactly when that changes it, or the error is that of the first region that raises |
| `RequestBody.RegionsBack` | src/pipeline/sanitize.py:97-106 | every region's new text rehydrates to its old text in any later state |
| `RequestBody.BodyExchange.SentRewalks` | src/pipeline/sanitize.py:97-111 | the sent body walks to the same paths if and only if no sanitized text is unwrapped, and then its leaves are the original's with only the sanitized texts changed |
| `RequestBody.BodyExchange.RestoresBody` | src/pipeline/rehydrate.py:134-164 | rehydrating the sent body raises nothing, and gives back every leaf of the original if and only if no sanitized text is a JSON container at an `arguments` path |
| `LeadingZero.LeadingZeroIsLost` | src/pipeline/sanitize.py:97-111 | an Aadhaar number with a leading zero in an `arguments` list: the list of its surrogate is JSON, has no text region, and is never rehydrated |
| `LeadingZero.ValidNumberIsLost` | src/pipeline/sanitize.py:97-111 | one such number, with a valid check digit, over a constant block function and any codec that reads a list of a number of twelve digits unless it has a leading zero |
| `CodecExample.AssumptionsCanBeMet` | src/pipeline/field_walker.py:141-164 | everything assumed of json.loads and json.dumps holds together of one printer and parser |

## Left out

- AES, its chaining key schedule and key derivation: the cipher is an arbitrary function from 16-byte blocks to 16-byte blocks, and nothing depends on which.
- The floating-point logarithm in `_feistel_params`: taken as the exact ceiling, `CeilLog2`.
- Characters: digits and letters are ASCII; the program's `isdigit` and `\d` accept more.
- Regular-expression engines, Tier-1 patterns, the Tier-2 model: detector output is an arbitrary list of spans inside the text, or a failure.
- `json.loads` and `json.dumps`: an arbitrary codec that reparses what it prints for containers, yields dictionaries with distinct keys and never a value heavier than its text; number texts stand for numbers.
- HTTP, headers, status codes, settings, logging, clocks: time is an integer parameter, and a mid-stream transport error is the end of the fragment list.
- Candidate word lists, session ids and the random generator: parameters; a shuffle is any permutation.
- Transforms that raise inside a stream: the window's transform is total; `SessionInvariant.ReachableMinted` shows that rehydration does not raise.
- Locks: each locked block of the store is one atomic step, and the unlocked touch between them is another.
- A window with a negative lookahead, which the constructor refuses.
- A registered surrogate that is the empty string: no path mints one.
- `CycleWalk.WalkConverges`: for PAN, IFSC and vehicle marks the gap to the covering power of two exceeds the cap of 1000, so that their walks always return is not a theorem; `MixedRadixFf1.CombinedConverges` gives the exact condition instead.
- `ChunkIndependence.ExactlyWhenApart`: keeps to surrogates that do not overlap each other; when they do, `ExactlyWhen` covers the real values that meet none of them.
- Sessions that learn a surrogate while a response is streaming: the table is fixed for the length of one stream.
- Two types that mint the same string (Aadhaar, Card and Phone all have 12-digit surrogates): the registry keeps the later type, so the round trip asks that each span's surrogate is still registered under the mechanism that minted it (`MechanismKept`).
- The deep copy in `serialize_content_delta` and the list extended in `detect` are values: `WithContent` returns a new envelope, and the detector lists are concatenated.
- Snapshot and lookup accessors of the session, the scoring counters, the evaluation harnesses: none of them changes what is sent or received.
