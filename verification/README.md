# CyberAssess: a verified model of its protocols and algorithms

This project models, in Dafny, the parts of the CyberAssess backend and front end where
several pieces of code have to agree with each other, and proves that they do, or exactly
when they do.

| part | modules | what it is about |
|---|---|---|
| execution proofs | `Utf8`, `Base64Url`, `Json`, `JsonParser`, `JsonRoundTrip`, `KeyOrder`, `CanonicalText`, `JsonGrammar`, `Surrogates`, `ExecutionProof` | the proof string `TYPE:v2:sha256:base64url(canonical JSON)`, its strict decoder, and the JSON printer and reader under it (RFC 8259, sections 2 to 7; RFC 4648, sections 3.5 and 5) |
| launch contexts | `ArgumentVectors`, `IsoTime`, `Binding`, `DigestTexts`, `Snapshots`, `LaunchContext`, `LaunchLaws`, `ContextRegistry` | freezing, binding and command digests, issuing a context from a claimed capability, the bounded registry of issued contexts |
| event stream | `EventStream`, `Dumped`, `EventWriter`, `EventLaws` | the incremental reader of server-sent events and the text the server writes (a subset of section 9.2.6 of the WHATWG HTML standard) |
| correlation | `Correlator`, `CorrelationLaws`, `CorrelationCounts`, `CorrelationOutput`, `CorrelationOrder` | greedy SAST/DAST pairing, clustering by key, occurrences and counts |
| flow control | `TokenBucket`, `CircuitBreaker`, `LoginWindow` | bounds over whole runs, cut at the points where tasks interleave |
| managed artifacts | `ResourceManifest`, `BinaryTrust`, `BinaryTrustLaws`, `TrustAcceptance` | the two walks over a resource tree, two record builders and one verifier |
| small languages | `Ports`, `DomainScope`, `Discovery` | port specifications, domain names and their scope, the bounded discovery loop |

`Prelude`, `Digest`, `Decimal`, `TextOrder` and `PyText` hold shared vocabulary. Code that
works by expressions is a function here; code that changes things in place is a class or a
method with its loops, proved against a specification function, and the laws are proved about
that function. Besides laws that relate these functions to each other there are laws (`..Exactly`, `..Means`) that say what each computes
in terms of texts, outputs, counts and constants written out. `dafny verify dfyconfig.toml`
checks everything.

Conventions. A Python string is a sequence of code points, surrogates included (`Text`), where
that matters, and a Dafny `string` elsewhere. SHA-256 is a parameter of type `Hash`; that it
yields 64 lower-case hexadecimal digits (`Digests`) or is injective (`CollisionFree`) is
assumed only where a lemma says so. Clocks are parameters. Times and rates are real numbers.
Dictionaries are maps, so the order in which their entries were set is modelled only where the
code depends on it.

## What turned out not to hold

The code is modelled as it is. Where a property one would expect fails, the project proves
under which exact condition it holds; most conditions come with a concrete failing case.

- A proof payload with a high and a low surrogate side by side in a string is encoded but
  decoded to a different payload (`ExecutionProof.RoundTrip`, `ExecutionProof.SplitPairLost`);
  with such a pair in a key the proof may be refused, exactly when keys then coincide or leave
  their order (`ExecutionProof.DecodesExactly`, `ExecutionProof.SplitKeyRejected`).
- For the same reason the command digest of a capability cannot tell such vectors apart
  (`Binding.CapabilityAcceptsJoined`), and any argument with an ordinary character above U+FFFF
  has a second accepted spelling (`Binding.CapabilityIdentifiesExactly`); the digest of a
  context refuses surrogates altogether, and so the two checks together leave one vector. Nor
  does a trust record keep such file names (`BinaryTrustLaws.DirectWithBuiltResources`).
- Freezing turns datetimes into texts, lists into tuples and dictionaries into tuples of pairs,
  so a binding digest identifies its map exactly if nothing in it could have come from, or gone
  into, one of these (`Binding.MapIdentifiedExactly`, `Binding.NestedMapsCollide`).
- The run snapshot is compared with Python's `==`, which does not tell `True` from 1 or `False`
  from 0; the digests do. A run that passes the comparison must have the approved digests exactly
  if no Boolean, 0 or 1 stands anywhere in the approved maps (`Snapshots.SnapshotDigestsExactly`,
  `LaunchContext.SnapshotPinsExactly`, `Snapshots.EqualSnapshotsOtherDigest`).
- A context strips its identifiers and is compared with the unstripped ones of its issuer, so
  blanks around one make it useless (`LaunchContext.IssuedIsBound`,
  `LaunchContext.BlankIdentifierUnbound`).
- A listener that closes the stream does so for the next chunk only: whether later events of
  the same chunk arrive depends on how the stream was cut (`EventWriter.CutsUnnoticedExactly`).
- A finding classified as both SAST and DAST can be paired with itself or end up in two pairs
  and is then counted twice; the pairing loop never asks whether its DAST finding was visited
  (`CorrelationCounts.ConservedExactly`, `CorrelationCounts.ConservedInEveryOrder`). It is
  never lost, though (`CorrelationCounts.NothingLost`), and the greedy pairing can then fall
  to a third of the best instead of half of it (`CorrelationLaws.ThirdIsReached`).
- A bar inside a category, a check id or a location lets findings of different kinds share a
  root cause; exactly when is `CorrelationCounts.KeyIdentifiesExactly` and, at one location,
  `CorrelationCounts.BarsMatterExactly`.
- The docstring of the circuit breaker calls tripping an abort, but a task that was asleep in
  `check_throttle` resets a tripped breaker when it wakes (`CircuitBreaker.SleeperResetsTripped`).
- The source-build record builder accepts an empty toolchain digest and the verifier does not
  (`BinaryTrustLaws.SourceAgreement`, `BinaryTrustLaws.EmptyToolchainBuilt`);
  and a catalogue version with a leading blank is not accepted behind the `v` that both
  builders write in front (`BinaryTrustLaws.PrefixedVersion`, `BinaryTrustLaws.AcceptableByDefault`,
  `BinaryTrustLaws.BlankVersionBuilt`).
- `normalize_domain` can return the text of an address, which it refuses when given it again;
  such a root has nothing in its scope, not even itself (`DomainScope.IdempotentExactly`,
  `DomainScope.AddressInDisguise`).

## Model

| member | source | states |
|---|---|---|
| ExecutionProof.RoundTrip | backend/app/core/execution_context.py:529-594 | For every payload the encoder accepts, decoding its proof gives exactly that payload back if and only if no string or key in it holds a high and a low surrogate side by side; so on strings of Unicode scalars always |
| ExecutionProof.DecodesExactly | backend/app/core/execution_context.py:529-594 | What happens otherwise, for every accepted payload: its proof decodes exactly when, in every dictionary inside, distinct keys stay distinct and in their order once split pairs are put together, and then to the payload with all its split pairs put together |
| ExecutionProof.SplitPairsJoined | backend/app/core/execution_context.py:529-594 | In particular a payload whose keys hold no split pair decodes, under the same keys, with every split pair in a string replaced by the character it spells |
| ExecutionProof.SplitPairLost | backend/app/core/execution_context.py:529-594 | For each proof type there is a payload that is encoded and whose proof decodes to another payload |
| ExecutionProof.SplitKeyRejected | backend/app/core/execution_context.py:529-594 | For each proof type there is a payload that is encoded and whose proof is refused |
| ExecutionProof.Canonicity | backend/app/core/execution_context.py:554-594 | For every string: it decodes to a payload under an expected type exactly when it is what encoding that payload under that type yields and the payload has no split surrogate pair; no other base64 tail, key order, blank or duplicate key is accepted |
| ExecutionProof.DecodedEncodes | backend/app/core/execution_context.py:554-594 | Whatever decodes, with any or no expected type, encodes under the type in its envelope to the very string it came from |
| ExecutionProof.OneStringPerPayload | backend/app/core/execution_context.py:554-594 | Two accepted strings with the same payload are the same string, whatever types were expected |
| ExecutionProof.DecodedPairFree | backend/app/core/execution_context.py:577-580 | A decoded payload never holds a split surrogate pair, which is why such payloads cannot round-trip |
| ExecutionProof.MatchExactly | backend/app/core/execution_context.py:481-483 | The envelope pattern takes a string apart into a type, a digest and a body exactly if it is these with `:v2:` and a colon between, the digest 64 lower-case hexadecimal digits and the body nonempty and within the base64url alphabet |
| ExecutionProof.ReadCanonicalBody | backend/app/core/execution_context.py:564-580 | The body of a canonical payload is nonempty, stays within the base64url alphabet, and is read back to the same bytes and value |
| ExecutionProof.EncodesExactly | backend/app/core/execution_context.py:529-551 | The encoder accepts a payload exactly if the type is one of the two supported ones, the payload shows the schema version and that type, and the text leaves the envelope within 16384 characters; the proof is then the type, the digest of the text and the text in base64 |
| ExecutionProof.AcceptedTextIsCanonical | backend/app/core/execution_context.py:514-594 | The text in an accepted proof is an object whose members stand in the order of the code points of their keys, and no other text of ASCII characters that is read as the same payload is shorter |
| TextOrder.LeqMeans | backend/app/core/execution_context.py:520 | One key is sorted before another exactly if it is a proper prefix of it or has the lower code point where they first differ |
| KeyOrder.MembersInOrder | backend/app/core/execution_context.py:514-526 | In the text of every printed dictionary the members stand, as a plain reader finds them, in that order of their keys, each key of the dictionary once and with its value |
| CanonicalText.CompactIsShortest | backend/app/core/execution_context.py:514-526 | No text in the characters that a style uses, blanks outside of strings and other spellings included, that is read without a duplicate key as some value is shorter than the compact text of that value |
| CanonicalText.PrintedPlain | backend/app/core/execution_context.py:518-522 | Printed text holds printable characters only, and with ASCII escapes only ASCII |
| JsonGrammar.ParsesExactly | backend/app/core/execution_context.py:577-580 | The reader returns a value for a text exactly if the text is blanks around a tree of the JSON grammar that means this value: RFC 8259, sections 2 to 7, with integers only, halves of a character that are written side by side put together, and duplicate keys treated as the hook says |
| JsonGrammar.ReadTree | backend/app/core/binary_trust.py:233 | Whatever follows it, except a digit behind a number, the text of a grammar tree is read as its meaning and up to its end, and fails if it has none |
| JsonGrammar.ReadGlyphs | backend/app/core/execution_context.py:577-580 | A string may spell each character as itself, by a letter behind a backslash or in four hexadecimal digits of either case, and is read as the characters spelled |
| JsonGrammar.EscapesExactly | backend/app/core/execution_context.py:522 | Each character is printed as itself, by its letter or by its number in lower-case hexadecimal, and which; with ASCII escapes one above U+FFFF by the numbers of its two halves |
| CanonicalText.SpacedText | backend/app/core/binary_trust.py:391 | An example of the spaced style around any key: one blank behind each comma and colon |
| JsonRoundTrip.RoundTrip | backend/app/core/execution_context.py:514-526 | For every printing style (ASCII escapes or not, compact or spaced) and with or without rejection of duplicate keys: parsing what was printed gives the value back if and only if it holds no split surrogate pair |
| JsonRoundTrip.PrintedReads | backend/app/core/binary_trust.py:233 | Every printed value can be parsed by plain `json.loads`, and what it reads as (split pairs put together, of two keys that become one the later) is the value itself exactly if it holds no split pair |
| KeyOrder.RereadPrintsAlikeExactly | backend/app/core/execution_context.py:580-584 | With ASCII escapes a value and what it reads as are printed alike exactly when putting split pairs together leaves the keys of every dictionary inside distinct and in their order |
| KeyOrder.OrderKeptSorted | backend/app/core/execution_context.py:514-526 | Keys keep their order in that sense exactly when their sorted list, with split pairs put together key by key, is still strictly ascending |
| JsonRoundTrip.PrintInjective | backend/app/core/execution_context.py:514-526 | Two values without split surrogate pairs that print alike are equal: keys are sorted, so map order cannot matter, and no escape is ambiguous |
| JsonRoundTrip.ParsePairFree | backend/app/core/execution_context.py:577-580 | Whatever the JSON reader returns holds no split surrogate pair |
| JsonParser.RejectDuplicatePairs | backend/app/core/execution_context.py:597-603 | The object hook, with its loop: it succeeds exactly when no key occurs twice, and then returns the dictionary of exactly the given pairs |
| JsonParser.FromPairsDistinct | backend/app/core/execution_context.py:597-603 | The specification of the hook rejects a list of pairs exactly when some two positions share a key |
| JsonParser.HooksAgree | backend/app/core/binary_trust.py:233 | Where the duplicate check passes, the dictionary is the one that plain `json.loads` makes |
| JsonParser.LastWinsFrom | backend/app/core/binary_trust.py:233 | Without the check the dictionary has exactly the keys of the pairs, each with a value that some pair gives it |
| Utf8.RoundTrip | backend/app/core/execution_context.py:578 | Strict UTF-8 decoding undoes encoding for every text |
| Utf8.DecodesExactly | backend/app/core/execution_context.py:578 | Decoding is strict: bytes decode to a text exactly if they are the encoding of that text |
| Utf8.AsciiAsItself | backend/app/core/execution_context.py:524 | ASCII characters are encoded as one byte each, their own code |
| Utf8.EncodesNumber | backend/app/core/execution_context.py:524 | How many bytes a character takes, and that its number is what they carry: the table in section 3 of RFC 3629 |
| Base64Url.RoundTrip | backend/app/core/execution_context.py:546-573 | Stripping the padding, putting back `(4 - len % 4) % 4` characters and decoding returns every byte string; the unpadded text stays within the URL-safe alphabet (RFC 4648, section 5) |
| Base64Url.PadCount | backend/app/core/execution_context.py:568 | The padding rule yields fewer than four characters and completes the text to a multiple of four |
| Base64Url.PaddedShape | backend/app/core/execution_context.py:546-568 | A padded encoding is a body over the alphabet followed by exactly the padding that the length of that body asks for |
| Base64Url.KnownVectors | backend/app/core/execution_context.py:546 | Three test vectors, two of them of RFC 4648, section 10, one with both symbols of section 5 |
| Base64Url.AlphabetExactly | backend/app/core/execution_context.py:546 | The 64 symbols in their order: table 2 of RFC 4648 |
| Base64Url.GroupMeans | backend/app/core/execution_context.py:546 | The four symbols of three bytes are the base-64 digits of the number that these are the base-256 digits of |
| JsonRoundTrip.StringReadsJoined | backend/app/core/execution_context.py:514-526 | A string printed with ASCII escapes is read back with each split surrogate pair replaced by the character it spells, and so changes exactly if it has one |
| Surrogates.JoinedOnceExactly | backend/app/core/execution_context.py:514-526 | A text is the only one with its ASCII escapes read back exactly when it has no split pair and no character above U+FFFF |
| ArgumentVectors.AsciiVectorsEqual | backend/app/core/execution_decision.py:255-258 | Two argument vectors print alike with ASCII escapes exactly when they have the same length and each argument agrees once split pairs are joined |
| ArgumentVectors.JoinedVectorOnceExactly | backend/app/core/execution_decision.py:255-258 | No other vector agrees with a given one once split pairs are joined exactly when each of its arguments is such a text |
| ArgumentVectors.PlainVectorsEqual | backend/app/core/execution_context.py:452-457 | Without ASCII escapes, vectors of strings of scalars can always be printed and print alike only if equal |
| Binding.FreezeIdempotent | backend/app/core/execution_context.py:460-476 | Freezing a frozen value changes nothing, and its digest is that of the value it came from |
| Binding.FrozenStays | backend/app/core/execution_context.py:460-471 | Everything made of tuples and scalars is already frozen |
| Binding.FreezeFrozen | backend/app/core/execution_context.py:460-471 | Freezing leaves no dictionary, list or datetime anywhere inside |
| DigestTexts.FreezesExactly | backend/app/core/execution_context.py:460-471 | A value can be frozen exactly if every dictionary in it has nonblank keys and nothing in it is of an unsupported kind |
| DigestTexts.BindingDigestExists | backend/app/core/execution_context.py:474-476 | A binding digest exists exactly if the value can be frozen and holds no surrogate |
| DigestTexts.BindingText | backend/app/core/execution_context.py:474-476 | It is the hash of the shortest JSON text, in plain characters, that is read as the value: datetimes as texts, lists and tuples as arrays, dictionaries as arrays of pairs in the order of their keys |
| DigestTexts.OperationText | backend/app/core/execution_decision.py:251-252 | The digest of operation options is the hash of an ASCII text that is read as the options as an object, and the shortest such text if they hold no split pair |
| DigestTexts.OperationDigestExists | backend/app/core/execution_decision.py:251-252 | It exists exactly if JSON has something for every part of the options, which it has not for datetimes |
| DigestTexts.CapabilityText | backend/app/core/execution_decision.py:255-258 | The command digest of a capability exists for every nonempty vector and is the hash of the shortest ASCII text of the array of its arguments, split pairs put together |
| DigestTexts.ContextText | backend/app/core/execution_context.py:452-457 | That of a context exists exactly for nonempty vectors of nonempty arguments without surrogates and is the hash of the shortest text of the array of the arguments |
| IsoTime.IsoExactly | backend/app/core/execution_context.py:461-462 | A text is the ISO form of a datetime in UTC exactly if it is what the date, the time and, unless zero, the microseconds of some civil time are printed as |
| Binding.DigestsIdentifyFrozen | backend/app/core/execution_context.py:474-476 | Under an injective hash two digests are equal exactly when the frozen values are |
| Binding.FlatMapsFreezeApart | backend/app/core/execution_context.py:460-471 | Maps of scalars that freeze alike are equal |
| Binding.FlatDigestsIdentifyMaps | backend/app/core/execution_context.py:474-476 | Under an injective hash two maps of scalars have one binding digest exactly when they are the same map |
| Binding.FrozenAlikeExactly | backend/app/core/execution_context.py:460-471 | Two maps freeze alike exactly when they have the same keys and, under each, values that freeze alike |
| Binding.MapIdentifiedExactly | backend/app/core/execution_context.py:460-476 | Under an injective hash the digest of a map identifies it among all maps exactly when every value in it is null, a Boolean, an integer, or a string that is not the ISO text of a datetime in UTC |
| Binding.Twin | backend/app/core/execution_context.py:460-471 | Every other value has a twin with its frozen form: a datetime its text and back, a list a tuple and back, a dictionary the tuple of its pairs |
| Binding.NestedMapsCollide | backend/app/core/execution_context.py:465-469 | For example, every map under a key has the digest of the tuple of its frozen pairs under that key |
| Snapshots.SnapshotDigestsExactly | backend/app/core/execution_decision.py:205-214 | Under an injective hash, every map that the snapshot comparison finds equal to the approved one has its digest if and only if the approved map holds no Boolean and no integer 0 or 1 at any depth |
| Snapshots.EqualButApart | backend/app/core/execution_decision.py:205-214 | Every freezable value that does hold one has an equal value that freezes to something else |
| Snapshots.PyEqualExactly | backend/app/core/execution_decision.py:213 | What the comparison sees: two maps are equal exactly if they are the same after every Boolean in them is replaced by 1 or 0, tuples and lists kept apart |
| Snapshots.EqualSnapshotsOtherDigest | backend/app/core/execution_decision.py:205-214 | For example, `True` under a key equals 1 there and has another digest |
| Binding.LaunchAcceptsOneVector | backend/app/core/execution_context.py:452-457 | Under an injective hash the command digest of a context matches its own argument vector and no other |
| Binding.CapabilityAcceptsJoined | backend/app/core/execution_decision.py:255-258 | The command digest of a capability matches exactly the vectors that differ from its own in split surrogate pairs at most |
| Binding.CapabilityIdentifiesExactly | backend/app/core/execution_decision.py:255-258 | Under an injective hash the command digest of a nonempty vector matches no other vector if and only if no argument holds a split pair or a character above U+FFFF |
| Binding.BothChecksLeaveOneVector | backend/app/core/execution_context.py:689-694 | A vector that passes the capability check and can be digested for a context is unique, whatever vector the capability was issued for |
| LaunchContext.IssuedExactlyWhenIssuable | backend/app/core/execution_decision.py:180-248 | A context is issued exactly when every one of these holds: the three claims, the checks of the capability, each comparison with the run row, no blank identifier, vectors and maps that have digests, and time left before the expiry; the four binding-digest comparisons of its own validator can never fail |
| LaunchContext.DigestOfFrozen | backend/app/core/execution_decision.py:229-236 | A map with a binding digest can be frozen, and the frozen field has that same digest |
| LaunchContext.OwnSnapshotMatches | backend/app/core/execution_decision.py:205-214 | A run row that holds the approved maps passes the snapshot comparison, whatever they contain |
| LaunchContext.SnapshotPinsExactly | backend/app/core/execution_decision.py:205-236 | Every run row whose four maps pass the snapshot comparison has all four approved digests if and only if none of the approved maps holds a Boolean or an integer 0 or 1 at any depth |
| LaunchContext.IssuedIsBound | backend/app/core/execution_context.py:696-722 | An issued context passes the binding check against its issuer exactly when none of the thirteen compared identifiers has blanks around it |
| LaunchLaws.BoundExactly | backend/app/core/execution_context.py:696-722 | Under an injective hash an issued context is bound to another capability exactly if that shows its thirteen stripped identifiers, its project and its unstripped session, and each of its four maps can be digested and freezes as that of the issuer does |
| LaunchLaws.IssuedCarries | backend/app/core/execution_decision.py:215-246 | Every field of an issued context: each identifier stripped in its place, the correlation id or its fallback, command, expiry and project as they are, and the four maps frozen |
| LaunchLaws.OneCapabilityOneLaunch | backend/app/core/execution_decision.py:180-248 | Two contexts issued from one capability, with whatever run rows, commands and clocks, differ at most in request id, request fingerprint and correlation id |
| LaunchContext.BlankIdentifierUnbound | backend/app/core/execution_context.py:696-722 | There is an issuer with a blank in front of its execution id for which a context is issued and refused by the binding check |
| LaunchContext.IssuedLaunchesOneCommand | backend/app/core/execution_context.py:689-694 | Under an injective hash an issued context launches its own command under its own (stripped) execution and organization id until it expires, and nothing else |
| ContextRegistry.Registry.DropExpired | backend/app/core/execution_context.py:66-69 | The sweep over the full registry leaves exactly the unexpired contexts |
| ContextRegistry.Registry.Register | backend/app/core/execution_context.py:64-72 | Keeps the bound of 4096, registers under an unused identity, and fails exactly when the registry is full of unexpired contexts, leaving it unchanged |
| ContextRegistry.AuthoritativeUntilExpiry | backend/app/core/execution_context.py:64-77 | Over every later sequence of registrations a context stays registered as long as it has not expired |
| ContextRegistry.NeverOutgrown | backend/app/core/execution_context.py:64-72 | Over every sequence of registrations at most 4096 contexts are held |
| ContextRegistry.RegistersExactly | backend/app/core/execution_context.py:64-72 | A registration succeeds exactly with fewer than 4096 contexts or fewer than 4096 unexpired ones; expired ones go only in the second case, and every other entry stays as it is |
| EventStream.ParseEvent | frontend/js/app.js:1626-1635 | The line loop: the last `event:` line names the event, the data lines in order, joined by newlines, are its data, and without one there is no event |
| EventStream.Reader.Feed | frontend/js/app.js:1661-1668 | One turn of the read loop dispatches the events of every complete block of buffer plus chunk and keeps the rest; a closing listener takes effect only afterwards |
| EventStream.Reader.Run | frontend/js/app.js:1660-1669 | The whole read loop over any list of chunks; it ends with the source closed |
| EventStream.BlocksAppend | frontend/js/app.js:1664-1666 | Splitting a longer text at the separator is splitting its prefix and going on with what was left over, also when newlines straddle the cut or run together |
| EventStream.ChunkInvariance | frontend/js/app.js:1660-1668 | For every cutting into chunks, the events dispatched and the final buffer are those of splitting the whole text once, as long as no listener closes the stream |
| EventStream.ReadsTheText | frontend/js/app.js:1660-1668 | The same from an empty buffer |
| EventLaws.BlocksMean | frontend/js/app.js:1664-1666 | A text is its blocks with an empty line between any two, and each block ends at the first empty line there is |
| EventLaws.ParseMeans | frontend/js/app.js:1626-1635 | A block is an event exactly if some line carries data; the data are what those lines carry, without blanks in front, joined by newlines, and the name is that of the last line that names one, or `message` |
| EventLaws.TrimMeans | frontend/js/app.js:1631-1632 | Trimming takes blanks from both ends, or from the front only, and nothing else, and leaves none there |
| EventWriter.WrittenEventsReadBack | backend/app/api/scans.py:770 | Any list of well-formed events, written one after the other, is read back exactly and leaves nothing in the buffer |
| EventWriter.StreamRoundTrip | frontend/js/app.js:1626-1668 | Under every chunking the listeners get exactly the list that was written, in order |
| EventWriter.RoundTripExactly | backend/app/api/scans.py:770 | An event comes back as itself and nothing beside it exactly when its name is trimmed and without newline and its data has no newline and no leading blank |
| Dumped.DumpNoControl | backend/app/api/scans.py:769 | Printed JSON holds no character below U+0020, and so no newline, for every value, with members in any order and numbers of any kind, in every style |
| Dumped.DumpsAsPrinted | backend/app/api/scans.py:769 | Printing with sorted keys is the special case in which the members stand in the order of their keys |
| EventWriter.PrintedNoControl | backend/app/api/scans.py:769 | So values printed with sorted keys hold no character below U+0020 either |
| EventWriter.JsonDataWellFormed | backend/app/api/scans.py:769-770 | An event with a clean name and a JSON body, printed in insertion order in any style, is always well formed, whatever the body contains |
| EventWriter.DispatchedPrefix | frontend/js/app.js:1661-1668 | Under every chunking the listeners get the first so many events of the text, and all of them unless one of those made a listener close |
| EventWriter.CutsUnnoticedExactly | frontend/js/app.js:1644-1668 | Every chunking delivers all events of a text exactly when no event but the last makes a listener close the stream |
| EventWriter.Drain | backend/app/api/scans.py:759-772 | The draining loop writes the queued messages up to and including the first terminal one and takes no more |
| EventWriter.DrainedReadsBack | backend/app/api/scans.py:759-772 | A drained queue reaches the client as exactly those events, and none before the last is terminal |
| EventLaws.WrittenLinesExactly | backend/app/api/scans.py:770 | A written event is a line with its name, a line with its data and an empty line |
| EventLaws.EntryMeans | backend/app/api/scans.py:764-770 | Which event a queue entry becomes: its own name or a default, a text as it is and anything else as JSON |
| EventLaws.QueueMeans | backend/app/api/scans.py:759-772 | The loop takes entries in order up to the first whose name is one of the terminal ones, or all of them |
| Correlator.CorrelateFindings | backend/app/core/correlator.py:59-220 | Both stages with their loops produce exactly the specified root causes and occurrences |
| Correlator.PairStage | backend/app/core/correlator.py:86-156 | The first stage emits the greedy pairs in order and has visited exactly the ids in them |
| Correlator.FindMatch | backend/app/core/correlator.py:88-96 | The inner loop finds the first unvisited SAST finding that agrees on CWE or category |
| Correlator.FirstMatch | backend/app/core/correlator.py:88-96 | A match is unvisited, comes from the SAST list and agrees; without a match no unvisited one agrees |
| Correlator.GroupByKey | backend/app/core/correlator.py:159-166 | The dictionary of groups holds, under the keys in order of first appearance, exactly the findings with each key, in order |
| CorrelationOutput.ToolsMean | backend/app/core/correlator.py:113-194 | In the output alone: the tools of a root cause are those of its occurrences; it is verified by SAST and DAST exactly at the positions of the pairs, and confirmed by several tools exactly if it is at another position and two of its occurrences come from different tools |
| CorrelationOutput.FirstOccurrenceMeans | backend/app/core/correlator.py:106-218 | The first occurrence that points at a root cause is of a finding of the input that gives the root cause its category and evidence, and outside of pairs its CWE |
| CorrelationOutput.PairMeans | backend/app/core/correlator.py:98-156 | The i-th pair gives the i-th root cause, observed twice, with exactly two occurrences next to each other, of the DAST and of the SAST finding, and with the CWE of the DAST finding unless that has none |
| CorrelationOutput.OccurrenceMeans | backend/app/core/correlator.py:136-218 | Every occurrence points at a root cause and copies a finding of the input |
| CorrelationOrder.PairsGreedy | backend/app/core/correlator.py:82-100 | As positions in the input: the pairs take the DAST findings in order, each with the first SAST finding that agrees and is in no pair yet, and a DAST finding is left out only if there is none |
| CorrelationOrder.GroupsInOrder | backend/app/core/correlator.py:158-218 | Behind the pairs the root causes are the groups of the unpaired findings by key, in the order in which their first members arrive; each is observed as often as it has members, and its occurrences copy exactly these, in the order of the input |
| CorrelationOutput.AgreeMeans | backend/app/core/correlator.py:92-94 | Two findings agree exactly if they share a nonempty CWE, or a nonempty category up to the case of its letters |
| CorrelationOutput.ClassesMean | backend/app/core/correlator.py:83-84 | Which findings count as SAST and as DAST: by engine, by a part of the check id in whatever case, or by a part of the tool name |
| CorrelationOutput.SharedRootCauseExactly | backend/app/core/correlator.py:162-166 | Two unpaired findings without bars end up in one root cause exactly if they have the same category, the same CWE or, without one, check id, and the same location up to blanks around it and case |
| CorrelationLaws.PairsMaximal | backend/app/core/correlator.py:82-100 | Every pair joins a DAST and a SAST finding that agree; of any two that agree, the DAST finding is paired as such or the SAST finding is in some pair at the end |
| CorrelationLaws.PairsAreMatching | backend/app/core/correlator.py:86-100 | With distinct ids and no finding that matches itself, no finding is in two pairs or twice in one |
| CorrelationLaws.PairsHalfOfAnyMatching | backend/app/core/correlator.py:82-100 | Then no matching of agreeing findings has more than twice as many pairs as the greedy one |
| CorrelationLaws.PairsThirdOfAnyMatching | backend/app/core/correlator.py:82-100 | On every input with distinct ids, whatever is classified as both, none has more than three times as many |
| CorrelationLaws.ThirdIsReached | backend/app/core/correlator.py:83-100 | Five findings, one of them both SAST and DAST, of which one pair is made and three could be: without that condition the factor two fails and three is the best |
| CorrelationLaws.MatchingExactly | backend/app/core/correlator.py:86-100 | The pairs form a matching exactly when, along the run, no DAST finding about to be paired was visited before or is its own match: the two checks that the loop leaves out |
| CorrelationCounts.NothingLost | backend/app/core/correlator.py:136-218 | Whatever is classified as what, every finding of an input with distinct ids ends up in some root cause |
| CorrelationCounts.ClustersHoldFindings | backend/app/core/correlator.py:159-218 | If the pairs form a matching, the root causes hold the findings of the input, each exactly once |
| CorrelationCounts.ConservedExactly | backend/app/core/correlator.py:136-218 | With distinct ids every finding raises exactly one occurrence if and only if those two left-out checks would never have failed |
| CorrelationCounts.Conservation | backend/app/core/correlator.py:136-218 | In particular on every input without a finding that is both SAST and DAST and agrees with itself |
| CorrelationCounts.ConservedInEveryOrder | backend/app/core/correlator.py:83-218 | With distinct ids, findings are conserved in whatever order they arrive if and only if none of them is both SAST and DAST and agrees with itself |
| CorrelationCounts.ConservedAloneExactly | backend/app/core/correlator.py:83-100 | A single finding raises one occurrence exactly when it does not match itself |
| CorrelationCounts.ObservedCounts | backend/app/core/correlator.py:109-218 | `times_observed` of a root cause is the number of occurrences that point at it; the counts add up to at least the number of findings, and to exactly that number if and only if findings are conserved |
| CorrelationCounts.EveryRootCauseObserved | backend/app/core/correlator.py:159-196 | No group is ever empty, so every root cause has been observed at least once and its first member exists |
| CorrelationCounts.UnpairedShareByKey | backend/app/core/correlator.py:159-218 | Two unpaired findings share a root cause exactly when their grouping keys are equal |
| CorrelationCounts.KeyIdentifiesExactly | backend/app/core/correlator.py:163-166 | A finding shares its grouping key only with findings of the same category, CWE-or-check and normalised location if and only if there is no bar in its category or its CWE-or-check, and no bar in its location in front of something that is a normalised location itself |
| CorrelationCounts.BarsMatterExactly | backend/app/core/correlator.py:163-166 | At one location the key stands for one category and one CWE-or-check if and only if neither holds a bar; with one, some other finding always gets the same key |
| CorrelationCounts.KeyPartsExactly | backend/app/core/correlator.py:163-166 | If neither of two findings has such a bar, their keys are equal exactly when category, CWE-or-check and normalised location are |
| CorrelationCounts.BarsMergeKeys | backend/app/core/correlator.py:163-166 | With a bar, findings of different categories get one key |
| TokenBucket.TokenBucketRateLimiter.constructor | backend/app/core/rate_limiter.py:24-29 | Starts full, with the rate clamped to 0.5..20 and a capacity of at least 1 |
| TokenBucket.TokenBucketRateLimiter.Refill | backend/app/core/rate_limiter.py:31-36 | Adds the gain since the last refill up to the capacity |
| TokenBucket.TokenBucketRateLimiter.TryAcquire | backend/app/core/rate_limiter.py:42-50 | The locked section: grants exactly when a whole token is there after the refill, otherwise says how long to sleep |
| TokenBucket.TokenBucketRateLimiter.Acquire | backend/app/core/rate_limiter.py:38-51 | An uncontended caller gets through after at most 200 sleeps whatever rates it finds on waking, after at most one if the rate stays, and at once exactly when a token is there |
| TokenBucket.TokenBucketRateLimiter.HalveRate | backend/app/core/rate_limiter.py:53-57 | Halves the rate down to 0.5 and changes nothing else |
| TokenBucket.TokenBucketRateLimiter.ResetRate | backend/app/core/rate_limiter.py:59-63 | Sets the clamped rate and changes nothing else |
| TokenBucket.StepKeepsValid | backend/app/core/rate_limiter.py:31-63 | Every atomic step keeps 0 <= tokens <= capacity, 0.5 <= rate <= 20 and the capacity |
| TokenBucket.FailedRoundGains | backend/app/core/rate_limiter.py:42-51 | A round that grants nothing is followed by a wake-up with at least 0.005 token more, and with a whole token if the rate is unchanged |
| TokenBucket.RunKeepsValid | backend/app/core/rate_limiter.py:24-63 | The same over every interleaving of acquirers, halvings and resets |
| TokenBucket.GrantedFromNow | backend/app/core/rate_limiter.py:31-63 | From any state on, a run grants no more than the tokens there are plus what its highest rate can add |
| TokenBucket.WindowBound | backend/app/core/rate_limiter.py:24-63 | In any window of length d of any run at most capacity + r * d tokens are granted, where r bounds the rate in the run |
| TokenBucket.RateBound | backend/app/core/rate_limiter.py:24-63 | Unconditionally at most capacity + 20 * d |
| TokenBucket.RateBoundWithoutReset | backend/app/core/rate_limiter.py:24-57 | Without resets, however often the rate is halved, at most capacity + (present rate) * d |
| TokenBucket.BurstExactly | backend/app/core/rate_limiter.py:42-47 | Of any number of callers at one moment exactly as many are granted a token as there are whole tokens after the refill |
| TokenBucket.FullBucketServesBurst | backend/app/core/rate_limiter.py:24-47 | A new bucket serves every burst up to its capacity |
| TokenBucket.Accounting | backend/app/core/rate_limiter.py:31-63 | Conservation over every run: tokens at the end, tokens granted and tokens cut off at the capacity are together the tokens at the start and those gained |
| TokenBucket.RefusedOnlyWhenSpent | backend/app/core/rate_limiter.py:38-51 | So a caller is refused only when all but less than one of the tokens that were there or came in have been granted or cut off |
| TokenBucket.SleepIsLeast | backend/app/core/rate_limiter.py:49-51 | The sleep is the shortest of at least 0.01 after which a token is there at the present rate |
| TokenBucket.HalvedAgain | backend/app/core/rate_limiter.py:53-57 | k halvings divide the rate by the k-th power of two, down to 0.5, and change nothing else |
| TokenBucket.ResetIsNearest | backend/app/core/rate_limiter.py:59-63 | A reset sets the rate between 0.5 and 20 that is nearest to the one asked for |
| CircuitBreaker.CircuitBreaker.RecordSuccess | backend/app/core/rate_limiter.py:81-91 | The complete new state |
| CircuitBreaker.CircuitBreaker.RecordResponse | backend/app/core/rate_limiter.py:93-117 | The complete new state, and the state it reports |
| CircuitBreaker.CircuitBreaker.BeginCheck | backend/app/core/rate_limiter.py:125-134 | The part before the `await`: sleeps exactly as long as the pause has left, and halves the rate of a limiter it is given exactly if it sleeps |
| CircuitBreaker.CircuitBreaker.EndCheck | backend/app/core/rate_limiter.py:134-137 | The part after the `await`, which resets the state unconditionally |
| CircuitBreaker.CountersAreHistory | backend/app/core/rate_limiter.py:81-117 | Over every run the counters are the server errors and timeouts since the last success |
| CircuitBreaker.ThrottledEpisode | backend/app/core/rate_limiter.py:105-117 | A throttled breaker entered that state at an error with five server errors or three timeouts since the last success, has been throttled since, and has counted the errors since |
| CircuitBreaker.TrippingNeeds | backend/app/core/rate_limiter.py:93-117 | Tripping takes five server errors or three timeouts since the last success where throttling set in, then five more errors without leaving that state; at least eight errors in all |
| CircuitBreaker.ThrottlesExactly | backend/app/core/rate_limiter.py:93-111 | A normal breaker becomes throttled exactly at an error that makes three timeouts or five server errors since the last success, for as long as its pause |
| CircuitBreaker.TripsExactly | backend/app/core/rate_limiter.py:112-115 | A throttled breaker trips exactly at the fifth error of its episode |
| CircuitBreaker.RecoversExactly | backend/app/core/rate_limiter.py:87-137 | A throttled breaker is normal again exactly when a sleeping task wakes, or when a check begins or a success is recorded after the pause |
| CircuitBreaker.AsleepExactly | backend/app/core/rate_limiter.py:125-137 | How many tasks are asleep: the checks that began in the throttled state before its end, less the wakings |
| CircuitBreaker.LeavesTrippedExactly | backend/app/core/rate_limiter.py:81-137 | Of all steps only the second half of a check that was asleep leaves the tripped state, and each such step does |
| CircuitBreaker.TrippedForGood | backend/app/core/rate_limiter.py:81-137 | With nobody asleep a tripped breaker stays tripped in every run |
| CircuitBreaker.TrippedIsFinalExactly | backend/app/core/rate_limiter.py:119-137 | A tripped breaker stays tripped in every future exactly when no task is asleep in the check |
| CircuitBreaker.SleeperResetsTripped | backend/app/core/rate_limiter.py:125-137 | A concrete run of twelve steps that trips and is normal again |
| LoginWindow.LoginLimiter.Check | backend/app/api/auth.py:182-196 | Prunes the list of the key to the last 60 seconds and admits exactly if fewer than five attempts are left |
| LoginWindow.LoginLimiter.RecordFailed | backend/app/api/auth.py:199-200 | Appends the clock to the list of the key only |
| LoginWindow.LoginLimiter.Reset | backend/app/api/auth.py:203-204 | Forgets the key only |
| LoginWindow.LoginLimiter.Attempt | backend/app/api/auth.py:207-240 | The order in which a login uses them, as one atomic step |
| LoginWindow.PruningChangesNothing | backend/app/api/auth.py:182-240 | After any run with a monotone clock the next login of any key is decided as the full failure history since the last reset would decide it |
| LoginWindow.FifthLastIsOld | backend/app/api/auth.py:188-196 | Where there is room for another failure, the fifth last one is at least 60 seconds old |
| LoginWindow.SixFailuresTakeAMinute | backend/app/api/auth.py:182-240 | In any run any six consecutive recorded failures of a key since its last reset span at least 60 seconds |
| LoginWindow.TurnedAwayExactly | backend/app/api/auth.py:182-240 | After any run with a monotone clock a login is turned away exactly if its key was denied at least five times within the last 60 seconds since it was last accepted; otherwise its password decides |
| ResourceManifest.BuildResourceManifest | backend/app/core/binary_trust.py:73-112 | The building loop with its counter and early exits computes the specified manifest or fails |
| ResourceManifest.VerifyResourceManifest | backend/app/core/binary_trust.py:115-153 | The separately written verifying loop computes the specified verdict |
| ResourceManifest.WalkIsAt | backend/app/core/binary_trust.py:92 | The walk lists exactly the entries below the root, each at its path |
| ResourceManifest.ScanOrderIrrelevant | backend/app/core/binary_trust.py:132-151 | Two listings with the same entries give the same manifest or both fail |
| ResourceManifest.VerifiesExactlyWhatBuilds | backend/app/core/binary_trust.py:73-153 | On every finite tree and for every listing order, verification succeeds with a manifest exactly when building succeeds with that manifest |
| ResourceManifest.BuiltManifest | backend/app/core/binary_trust.py:92-112 | A built manifest maps a relative name to a digest exactly when there is a regular file with that digest at that path |
| ResourceManifest.BuildsExactly | backend/app/core/binary_trust.py:85-112 | A manifest is built exactly of a directory with at most 4096 entries below it, all of them files and directories |
| ResourceManifest.RelMeans | backend/app/core/binary_trust.py:108 | Relative names are the names on a path with slashes between them, so no two paths share one |
| ResourceManifest.WalkOnce | backend/app/core/binary_trust.py:92 | The walk lists no entry twice |
| ResourceManifest.EqualManifestsSameFiles | backend/app/core/binary_trust.py:73-112 | Under an injective hash two trees have one manifest exactly when they have the same files with the same bytes |
| ResourceManifest.EqualManifestsSamePruned | backend/app/core/binary_trust.py:98-99 | That is, exactly when they are the same tree once directories without files are cut off |
| BinaryTrustLaws.RecordReads | backend/app/core/binary_trust.py:233-235 | Every written record is parsed to its own fields, each as reading leaves it, also where file names in it run into one |
| BinaryTrustLaws.RecordReadsBack | backend/app/core/binary_trust.py:383-393 | Without split surrogate pairs it is parsed back to the same fields |
| BinaryTrustLaws.ManifestRereads | backend/app/core/binary_trust.py:364-366 | An embedded manifest is read back as a manifest whose file names have their split pairs put together: the same manifest exactly if no name has any |
| BinaryTrustLaws.PrefixedVersion | backend/app/core/binary_trust.py:155-156 | Writing `v` in front of a version leaves its normal form alone exactly when it starts with no blank or is nothing but blanks |
| BinaryTrustLaws.CommonAgrees | backend/app/core/binary_trust.py:163-199 | The common fields of a built record pass the common check, whatever version is expected, exactly when the written version normalises to the expected one and the installer version is not blank |
| BinaryTrustLaws.DirectAgreement | backend/app/core/binary_trust.py:202-367 | A direct-artifact record is accepted on the disk it was built from, whatever version is asked for, exactly when that version is nonempty and the written one normalises to it, the installer version is not blank, the record at most 1 MiB, and an embedded manifest, as read back, verifies |
| BinaryTrustLaws.AcceptableByDefault | backend/app/core/binary_trust.py:163-199 | If no version is asked for, the condition on versions is that the catalogue version is nonempty and has no leading blank unless it is blank altogether |
| BinaryTrustLaws.DirectWithBuiltResources | backend/app/core/binary_trust.py:73-367 | If the embedded manifest is the one built from the resource tree, in whatever order it is listed, the last condition becomes that no file name holds a split surrogate pair |
| BinaryTrustLaws.SourceAgreement | backend/app/core/binary_trust.py:202-459 | A source-build record is accepted, whatever version is asked for, exactly under the same conditions and a nonempty toolchain digest, over both toolchain sources and both identity fields |
| BinaryTrustLaws.BlankVersionBuilt | backend/app/core/binary_trust.py:155-367 | There is a catalogue whose version has a leading blank and a disk for which a record is built and then refused |
| BinaryTrustLaws.EmptyToolchainBuilt | backend/app/core/binary_trust.py:396-459 | There is a catalogue and a disk for which a record with an empty toolchain digest is built and then refused |
| BinaryTrustLaws.ExecutableIsBound | backend/app/core/binary_trust.py:199-240 | Under an injective hash one record text, of whatever origin, is accepted with one content of the executable only |
| BinaryTrustLaws.ResourcesAreBound | backend/app/core/binary_trust.py:290-299 | And, if it embeds a manifest, with one resource tree only, up to directories without files |
| TrustAcceptance.AcceptedExactly | backend/app/core/binary_trust.py:163-303 | A record of whatever origin is accepted exactly if it is a JSON object in a regular file of at most 1 MiB beside an executable of a known tool in its place, and shows: the tool id, platform, architecture and file name; a version that normalises to the expected, nonempty one; the digest of the executable; status VALID; an installer that is not blank; claims that are no lists or dictionaries; the catalogue artifact and, for a source build, its revision and toolchain, of a mode that the catalogue authorises; and, if it embeds a manifest, the claim for it and the manifest built from the resource tree |
| TrustAcceptance.PyStrExactly | backend/app/core/binary_trust.py:155-156 | The text that stands for a field where a version or a digest is expected: empty for null, false, zero, an empty list and an empty dictionary, otherwise that of true, of the integer or of the string |
| TrustAcceptance.FixedFieldsBind | backend/app/core/binary_trust.py:163-303 | In an accepted record of whatever origin, another value for a field of fixed content is accepted exactly if it is read as the old one and the file stays within its limit |
| TrustAcceptance.OtherFieldsBind | backend/app/core/binary_trust.py:155-303 | And another version, executable digest, installer or provenance exactly if it is one of those that the field permits |
| TrustAcceptance.BuildsDirectExactly | backend/app/core/binary_trust.py:307-346 | A direct-artifact record is built exactly for an executable in its place, of a tool whose catalogue entry authorises that mode and has an archive for this machine |
| TrustAcceptance.BuildsSourceExactly | backend/app/core/binary_trust.py:396-436 | A source-build record is built exactly for an executable in its place and the revision, archive and toolchain digest of an authorising catalogue entry |
| Ports.ValidatePortSpecification | backend/app/adapters/nmap_adapter.py:167-217 | The method with its loops computes the specified ports or the first error |
| Ports.TextMeaning | backend/app/adapters/nmap_adapter.py:189-217 | A text is accepted exactly when each of its parts is; then the result is strictly increasing, within 1..65535, and holds exactly the union of the numbers and ranges |
| Ports.ListMeaning | backend/app/adapters/nmap_adapter.py:180-188 | The same for a list, whose members are single numbers, whatever their script |
| Ports.FirstBadWord | backend/app/adapters/nmap_adapter.py:180-212 | The error reported is that of the first bad member or part |
| Ports.PartMeaning | backend/app/adapters/nmap_adapter.py:191-212 | An accepted part yields exactly the ports that its text denotes |
| Ports.PartExactly | backend/app/adapters/nmap_adapter.py:189-212 | Which parts are accepted: nothing, an integer from 1 to 65535, or two integers around the first hyphen that are such ports in order, then all ports between them; and with which error each other part is refused |
| Ports.IntegerExactly | backend/app/adapters/nmap_adapter.py:182-208 | An ASCII text is an integer exactly if it is groups of digits with single underscores between them, of at most 4300 digits, with at most one sign in front |
| Ports.NothingExactly | backend/app/adapters/nmap_adapter.py:167-217 | No port is asked for exactly by an empty list, by a text of blank parts and by every other false value |
| Ports.ItemErrorExactly | backend/app/adapters/nmap_adapter.py:180-188 | The error of a list: the first member that is no integer, or the first integer that is no port |
| Ports.TextErrorExactly | backend/app/adapters/nmap_adapter.py:189-212 | The error of a text is that of its first bad part |
| Ports.SortUnique | backend/app/adapters/nmap_adapter.py:216 | Strictly increasing, with exactly the elements of the input |
| Ports.PrintedReadsBack | backend/app/adapters/nmap_adapter.py:352-354 | Reading the comma-joined text of a list of ports gives that list back exactly when it is strictly increasing |
| Ports.CommandKeepsPorts | backend/app/adapters/nmap_adapter.py:307-354 | What the command builder prints is read back as the same ports, whatever accepted input it was given |
| Ports.PrintedAlikeExactly | backend/app/adapters/nmap_adapter.py:307-354 | Two accepted inputs are printed alike exactly when they denote the same ports |
| DomainScope.NormalForm | backend/app/adapters/subfinder_adapter.py:59-79 | A syntactically valid name is its own normal form unless it is the text of an address, which has none |
| DomainScope.IdempotentExactly | backend/app/adapters/subfinder_adapter.py:59-79 | Normalising twice does what normalising once does exactly when the first result is not the text of an IPv4 address; for ASCII input it never is |
| DomainScope.AsciiNormalizesExactly | backend/app/adapters/subfinder_adapter.py:59-79 | An ASCII text, without blanks around it, dots behind it and capitals, is its normal form if it has 1 to 253 characters, is no IPv4 address, and consists of labels of 1 to 63 letters, digits and hyphens without a hyphen at an end; otherwise it has none |
| DomainScope.AddressExactly | backend/app/adapters/subfinder_adapter.py:70-75 | An IPv4 address is four decimal numbers up to 255, without leading zeros, with dots between them |
| DomainScope.AddressInDisguise | backend/app/adapters/subfinder_adapter.py:66-79 | A name of fullwidth digits normalises to an address, which normalises to nothing |
| DomainScope.EndingIsLabelSuffix | backend/app/adapters/subfinder_adapter.py:87 | For all texts: being equal to the root or ending in a dot and the root is having the labels of the root as last labels |
| DomainScope.ScopeIsLabelSuffix | backend/app/adapters/subfinder_adapter.py:81-87 | A domain is in scope exactly when both normalise and the labels of the root are the last labels of the domain |
| DomainScope.ScopeOfNormalized | backend/app/adapters/subfinder_adapter.py:81-87 | On names normalised already, as in the discovery loop: invalid exactly if one is the text of an address, otherwise decided by the labels |
| DomainScope.ScopesNest | backend/app/adapters/subfinder_adapter.py:81-87 | Scope is transitive, two scopes that share a name are nested, and two names in the scope of each other have one normal form |
| Discovery.Discover | backend/app/adapters/subfinder_adapter.py:252-303 | The loop reports: as emitted hosts the first 10000 distinct hosts in scope in the order of their first sighting, as sources the union over all sightings of each, the rejected hosts in order, the two counters, and the limit flag exactly when there were more than 10000 |
| Discovery.FirstsDistinct | backend/app/adapters/subfinder_adapter.py:279-288 | No host is emitted twice |
| Discovery.FirstsAreFirst | backend/app/adapters/subfinder_adapter.py:286-303 | Every emitted host carries the sources of its first sighting, and the order is that of the first sightings |
| Discovery.SourcesCounted | backend/app/adapters/subfinder_adapter.py:253-287 | The source map always has exactly as many entries as hosts were emitted, so testing its keys is testing the limit |
| Discovery.SourcesExactly | backend/app/adapters/subfinder_adapter.py:253-288 | A source is reported for an admitted host exactly if some line that shows this host names it |
| Discovery.RejectedExactly | backend/app/adapters/subfinder_adapter.py:270-285 | A host is reported as out of scope exactly if some line shows it and it, or the root, is an address or it is not below the root |
| Discovery.WarningsExactly | backend/app/adapters/subfinder_adapter.py:257-269 | The warnings count exactly the lines that are neither blank nor show a host |
| Discovery.LinesAccounted | backend/app/adapters/subfinder_adapter.py:257-285 | Every line is blank, malformed, out of scope or a sighting, and is counted once |
| Discovery.RunMeaning | backend/app/adapters/subfinder_adapter.py:252-303 | A run for a normalised root admits only names below it that are no addresses, each once, and all that are shown unless it reports the limit, and then exactly 10000; a root that is the text of an address admits nothing |

## Left out

Of the modelled code:

- JsonParser.RejectDuplicatePairs: JSON numbers are integers; fractions, exponents, NaN, the limit on the digits of an integer and the depth limit of the reader are not modelled.
- ExecutionProof.Canonicity: a string whose payload holds a float is accepted by the code and lies outside the modelled reader.
- ExecutionProof.RoundTrip: payload values are null, Booleans, integers, strings, lists and string-keyed dictionaries; floats and keys of other types are left out.
- JsonGrammar.ParsesExactly: numbers with fractions or exponents, NaN and the infinities, which the reader accepts beyond the grammar, are left out.
- Binding.FreezeIdempotent: floats are left out of binding maps; a datetime is represented by the ISO text of its UTC time, and values of other types count as equal to each other.
- Binding.FlatMapsFreezeApart: float scalars are left out.
- Binding.FlatDigestsIdentifyMaps: float scalars are left out.
- Binding.MapIdentifiedExactly: floats are left out.
- DigestTexts.BindingText: floats are left out.
- Snapshots.SnapshotDigestsExactly: floats are left out of the compared maps; Python also holds 1.0 and 1 to be equal, so with floats every integer that a float can hold would have an equal value with another digest.
- LaunchContext.IssuedExactlyWhenIssuable: identifiers are strings without surrogates; the registry of capabilities (which is cleared at 4096 entries), the durable run lookup, type coercion by the data model and the exception classes are not modelled, so `None` stands for every way of raising.
- LaunchContext.IssuedIsBound: membership of the context in the registry is the subject of `ContextRegistry` and is taken as given here.
- EventStream.ChunkInvariance: works on decoded text; `TextDecoder`, the fetch itself and aborting it are left out.
- EventWriter.Drain: the backlog written before the live loop and the subscription are left out; the queue is the list of messages that will ever arrive.
- Correlator.CorrelateFindings: scores, risk rounding, service-level clocks, titles, descriptions and timestamps are copied or computed fields without influence on the structure and are left out; a root cause is identified by its position instead of a random id, and contributing tools are a set.
- Correlator.GroupByKey: lower-casing is that of ASCII letters.
- CorrelationCounts.KeyPartsExactly: lower-casing is that of ASCII letters; stated for two findings without bars, the condition on one finding being that of `KeyIdentifiesExactly`.
- CorrelationCounts.KeyIdentifiesExactly: lower-casing is that of ASCII letters.
- CorrelationLaws.PairsHalfOfAnyMatching: stated for inputs without a finding that matches itself; without that condition the factor is three, and reached.
- TokenBucket.WindowBound: floats are real numbers; the lock is modelled by making its section one atomic step, so starvation among competing callers is not considered.
- LoginWindow.SixFailuresTakeAMinute: check and record of one login are one atomic step, as nothing is awaited between them; several worker processes do not share a window, as the code says itself.
- ResourceManifest.VerifiesExactlyWhatBuilds: the tree is a value that does not change during the walk; I/O errors and names with a slash cannot occur, and the check that a path stays below the root is then always passed.
- BinaryTrustLaws.DirectAgreement: an executable path is reduced to whether it lies in the managed directory and its name; the case-insensitive comparison on Windows, invalid UTF-8 in a record file and the time between check and launch are left out.
- BinaryTrustLaws.ExecutableIsBound: a record file with a float or NaN somewhere in it is refused by the modelled reader.
- BinaryTrustLaws.ResourcesAreBound: a record file with a float or NaN somewhere in it is refused by the modelled reader.
- BinaryTrustLaws.CommonAgrees: the text that Python makes of a nonempty list or dictionary is taken to be neither a version nor a digest.
- Ports.ValidatePortSpecification: how `int` turns digits of other scripts into ASCII is a parameter, fixed on ASCII text only. Members of a list stand as the text that `str` makes of them.
- DomainScope.IdempotentExactly: lower-casing, the `idna` codec and IPv6 recognition are parameters, fixed on ASCII text only.
- Discovery.Discover: lines arrive parsed; running the tool, log messages, the final finding and the execution state are left out.

Of the rest:

- Attestation digests of Windows and POSIX process ownership: the same canonical JSON under a fixed list of fields, which would add no harder property.
- Database, queue, orchestrator, process supervision and the durable claim of a decision: calls into a transaction that lies outside these files.
- Tool runs, binary discovery, version probes and report parsing: input, output and field copies.
- HTTP routing, password hashing, tokens, encryption and the user interface outside the stream reader: library behaviour.
- Grading, scope lists, migrations, package trust and capability caches: smaller cases of the same kinds of properties.
