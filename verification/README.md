# A Dafny model of the MACP Python SDK's hard core

The SDK (`src/macp_sdk`) turns bytes and streams that somebody else produced into
state that people act on: a vote is counted, a commitment is hashed, a task has an
assignee. This project models four connected parts of it and proves what they are
for.

* **The `Contribute` decoder** (`multi_round.py`). A payload is legacy JSON or
  Protobuf; two hand-written parsers read it and a tie-break chooses. The modules
  `JsonText`, `IgnoreValue`, `JsonGrammar`, `JsonReadings`, `JsonUnits`,
  `ContributeJson`, `Prost` and `Contribute` model the scanners as the loops they
  are, against recursive functions, and the functions against concrete syntax trees
  and the code units that literals spell.
* **The canonical codecs** (`canonical_json.py`, `commitment_hash.py`, `receipt.py`,
  `a2a.py`). `Varint`, `Wire*` and `Payload*` are the Protobuf wire encoder and
  the check on payload bytes; `JsonEscape`, `CodeUnits`, `Sorting`, `Decimal`,
  `Jcs*`, `Commitment*` and `ReadCommitment` the two canonical JSON printers;
  `Calendar`, `Timestamp`, `Base64` and `EnvelopeData` the envelope's other fields.
* **The projections** (`base_projection.py` and four modes) and the stream adapter
  that feeds them (`transports.py`). `Projection` is the base: one envelope at a
  time from an at-least-once feed. `DecisionModel`, `QuorumModel`, `TaskModel` and
  `MultiRoundModel` are the modes as state functions with theorems over every feed;
  the `...Class` modules are the objects with their fields updated in place, each
  method tied to the state function. `Ledger` is the first-wins bookkeeping that
  Decision votes and Quorum ballots share. `Transport` is the adapter.
* **Threshold logic**: `PolicyThreshold` (`policy.py`), the readiness queries in
  `QuorumModel`, and `Consensus`, the early-stopping tally of the engine.

Strings are sequences of Unicode scalar values; `Utf8` is section 3 of RFC 3629.
A Protobuf message is a tree over a schema. `ParseFromString` of a payload is an
arbitrary partial function, SHA-256 an arbitrary function of bytes, and Python's
`str.strip`, `str.upper` and `repr` are arbitrary functions of text (`MajorityUnique`
assumes one law of the first two: no text whose capitals spell ABSTAIN has spaces to
strip). A dict is a map, walked in an arbitrary order where the code walks
it; where its insertion order could matter (map fields, dicts given to `_jcs`) it is
a sequence of entries. Bit operations are written as sums, quotients and remainders.

What the code does where a promise fails of it, or needs a condition:

* The tie-break cannot hold for values of 2^64 UTF-8 bytes or more, whose length no
  64-bit varint carries; `Contribute.TieBreak` gives the outcome for every value.
* The notes at proto_registry.py:191-201 list more byte lengths, for that module's
  generic JSON parse; `_json_value` reads only arrays and objects, and collides at
  the six lengths of `Contribute.AmbiguousLengths`.
* `PolicyThreshold.PercentageIsLeast`: a percentage above 100 is out of reach except
  where the 32-bit cap meets at least 2^32 - 1 participants.
* `Transport.StartIsSafeIff`: starting a second generator of one adapter beside a live
  one lets the resume count run ahead, so that a later start skips an entry, unless the
  adapter is stopped or at most two entries are uncounted; the condition is exact, and
  `OverlapSkips` gives the skipping continuation. With one generator at a time
  `NoGaps` holds.
* `MultiRoundModel.ConsistentIff`: a SessionStart is not checked for convergence, so
  "converged exactly when all agree" holds after every message if and only if every
  SessionStart that is applied fits what is held when it comes. `StartAfterAgreement`
  and `StartAfterConvergence` are feeds that break it in the two possible ways;
  `ConvergedIff` says what convergence means over every feed.

## Model

| member | source | states |
|---|---|---|
| `Utf8.DecodeEncode` | src/macp_sdk/multi_round.py:131 | decoding undoes encoding, for every text |
| `Utf8.EncodeDecode` | src/macp_sdk/multi_round.py:286 | bytes that decode are exactly the encoding of what they decode to, so overlong and surrogate forms are refused |
| `Varint.ReadVarint` | src/macp_sdk/multi_round.py:61-73 | the decoder's loop computes the reference reading, with its ten-byte and 64-bit limits |
| `Varint.ReadWritten` | src/macp_sdk/multi_round.py:61-73 | a written varint is read back with its end exactly when it is below 2^64, and is malformed otherwise |
| `Varint.ReadSpelled` | src/macp_sdk/multi_round.py:61-73 | any spelling of a number, however long, is read to its end exactly when it fits 64 bits, and is malformed otherwise |
| `Varint.ReadIsSpelled` | src/macp_sdk/multi_round.py:61-73 | and whatever is read is such a spelling of that number |
| `Varint.WriteVarint` | src/macp_sdk/canonical_json.py:626-632 | the encoder's loop writes base-128 groups, least first |
| `Varint.WriteSelfDelimiting` | src/macp_sdk/canonical_json.py:626-632 | two varints with anything after them are equal only if the numbers and the rests are |
| `Varint.CheckVarint` | src/macp_sdk/canonical_json.py:682-694 | the payload check's loop computes its reference reading |
| `Varint.CheckSpelled` | src/macp_sdk/canonical_json.py:682-694 | it passes over any spelling of a number exactly when it fits 64 bits |
| `Varint.CheckWritten` | src/macp_sdk/canonical_json.py:682-694 | it accepts a written varint exactly below 2^64 |
| `Varint.ReadersAgree` | src/macp_sdk/canonical_json.py:682-694 | the two readers give the same number and end wherever prost's succeeds; where it fails the checker fails too, except exactly on a varint that the end of the bytes cuts off, which the checker lets pass |
| `JsonText.SkipWs` | src/macp_sdk/multi_round.py:156-159 | the loop stops at the first character that is not JSON whitespace |
| `JsonText.ScanEscape` | src/macp_sdk/multi_round.py:191-210 | one escape, surrogate pairs included, as the reference reading of escapes |
| `JsonText.ScanString` | src/macp_sdk/multi_round.py:175-210 | the string loop computes the recursive reading of a literal, in both modes |
| `JsonText.ScanDigits` | src/macp_sdk/multi_round.py:214-220 | the digit loop stops at the first character that is not a digit, and needs one |
| `JsonText.ScanNumber` | src/macp_sdk/multi_round.py:213-237 | the number scanner computes the reading of whole part, fraction and exponent |
| `IgnoreValue.Skip` | src/macp_sdk/multi_round.py:240-280 | the explicit-stack loop ends where the recursive-descent reading of the grammar ends and fails where it fails, for every text and any nesting; it terminates |
| `IgnoreValue.ScanKey` | src/macp_sdk/multi_round.py:253 | a member's key and the colon after it |
| `IgnoreValue.ScanLiteral` | src/macp_sdk/multi_round.py:262-265 | the first of the three words that stands there |
| `IgnoreValue.OpenArray` | src/macp_sdk/multi_round.py:246-256 | opening a non-empty array leaves its first element to be read inside one more closer |
| `IgnoreValue.OpenObject` | src/macp_sdk/multi_round.py:246-256 | opening a non-empty object leaves its first key, colon and value |
| `IgnoreValue.NextOrClose` | src/macp_sdk/multi_round.py:266-280 | what follows a value inside open containers: close, or a comma and the next element or member |
| `IgnoreValue.NothingBeforeCloser` | src/macp_sdk/multi_round.py:273-275 | the loop's trailing-comma check refuses nothing the grammar accepts |
| `JsonGrammar.ItemsRead` | src/macp_sdk/multi_round.py:175-210 | a literal printed with any legal escapes is read as its meaning; a lone surrogate makes it malformed when decoding |
| `JsonUnits.MeaningIff` | src/macp_sdk/multi_round.py:175-210 | a literal decodes to s exactly when its items spell the UTF-16 code units of s: plain characters their own, the eight short escapes theirs, `\uXXXX` the number its digits write in either case |
| `JsonUnits.LegalItemIff` | src/macp_sdk/multi_round.py:175-210 | what may stand in a literal, by character codes |
| `JsonUnits.LiteralRead` | src/macp_sdk/multi_round.py:175-210 | wherever a literal stands, the scanner decodes it to the text with its code units and to no other |
| `JsonReadings.NumberRead` | src/macp_sdk/multi_round.py:213-237 | every legal number is read up to its end |
| `JsonReadings.NumberIsPrinted` | src/macp_sdk/multi_round.py:213-237 | and whatever is read as a number is a legal number printed there |
| `JsonReadings.StringIsPrinted` | src/macp_sdk/multi_round.py:175-210 | whatever is read as a string is a legal literal with that meaning |
| `JsonReadings.ValueRead` | src/macp_sdk/multi_round.py:240-280 | every legal JSON tree, with any whitespace and escapes, is skipped to its end |
| `JsonReadings.ValueIsPrinted` | src/macp_sdk/multi_round.py:240-280 | whatever is skipped is some legal JSON tree printed there |
| `JsonReadings.AcceptsIffDerived` | src/macp_sdk/multi_round.py:240-280 | a whole text is accepted exactly when the grammar of sections 2 to 7 of RFC 8259 derives it |
| `ContributeJson.ReadJsonValue` | src/macp_sdk/multi_round.py:283-315 | the top-level loop computes the reference reading of a payload |
| `ContributeJson.ScanMember` | src/macp_sdk/multi_round.py:295-302 | one member: another key's value is skipped, a second "value" refused |
| `ContributeJson.ObjectIsSkipped` | src/macp_sdk/multi_round.py:294-310 | an object that is read ends where skipping it ends |
| `ContributeJson.FoldMeaning` | src/macp_sdk/multi_round.py:293-309 | members fold to s exactly when every key decodes, exactly one is "value", and it holds the string s |
| `ContributeJson.TreeMeaningIff` | src/macp_sdk/multi_round.py:283-315 | a text means s exactly when it is an array of one string that decodes to s, or an object whose keys decode with one single "value" holding such a string |
| `ContributeJson.TextMeans` | src/macp_sdk/multi_round.py:283-315 | a printed tree, in any whitespace, is read as the tree's meaning |
| `ContributeJson.JsonValueIff` | src/macp_sdk/multi_round.py:283-315 | the payload is read as s exactly when it is the UTF-8 of some JSON text whose tree means s |
| `ContributeJson.ValueIsAccepted` | src/macp_sdk/multi_round.py:283-315 | nothing is read from a text that the plain grammar refuses |
| `JsonEscape.EscapeJsonString` | src/macp_sdk/commitment_hash.py:87-107 | the escaping loop writes the reference escape of every character |
| `JsonEscape.EscapedIsRead` | src/macp_sdk/commitment_hash.py:87-107 | an escaped literal is read back exactly by the decoder's string scanner |
| `JsonEscape.EscapedSelfDelimiting` | src/macp_sdk/commitment_hash.py:87-107 | two escaped literals with anything after them are equal only if the texts and the rests are |
| `JsonEscape.EscapedIsShortest` | src/macp_sdk/commitment_hash.py:87-107 | what is written is no longer than any literal that means the text, and the only one of its length without upper-case hexadecimal digits |
| `Prost.Skip` | src/macp_sdk/multi_round.py:83-106 | the group loop with its recursion computes the reference skip |
| `Prost.FieldSkipped` | src/macp_sdk/multi_round.py:83-106 | a well-formed field, varints spelled at will, is skipped to its end exactly when its groups nest within the depth left |
| `Prost.GroupSkipped` | src/macp_sdk/multi_round.py:94-101 | a group is skipped to its own end tag, fields inside and all, within the depth left |
| `Prost.FieldsRead` | src/macp_sdk/multi_round.py:109-127 | from any position the rest of the fields decide the value |
| `Prost.ReadProtoValue` | src/macp_sdk/multi_round.py:109-127 | the field loop computes the reference reading of a message |
| `Prost.ProtoMeans` | src/macp_sdk/multi_round.py:109-127 | a message printed from any fields, groups nested and varints spelled at will, is read as its last legal `value`, or refused for the reason the fields give |
| `Prost.SkippedIsField` | src/macp_sdk/multi_round.py:83-106 | whatever is skipped under a key is a well-formed field with that key, nested within the depth |
| `Prost.ProtoIff` | src/macp_sdk/multi_round.py:109-127 | bytes have the value v exactly when they are the print of some legal fields that mean v |
| `Contribute.EncodeCanonical` | src/macp_sdk/multi_round.py:130-139 | the length loop writes the field key, the varint length and the UTF-8 |
| `Contribute.CanonicalRead` | src/macp_sdk/multi_round.py:109-139 | the Protobuf reader gives back every canonically encoded value below 2^64 bytes |
| `Contribute.DecideContribute` | src/macp_sdk/multi_round.py:332-340 | the decision computed from both parsers and the canonical re-encoding |
| `Contribute.DecidedIff` | src/macp_sdk/multi_round.py:318-340 | for every payload: Protobuf v exactly when it is not empty, its fields say v, and it says nothing as JSON or is a canonical encoding; JSON s exactly when it says s as JSON and is no canonical encoding; undecided exactly when it says nothing or is empty |
| `Contribute.TieBreak` | src/macp_sdk/multi_round.py:332-340 | a canonical encoding is decided as Protobuf with its value, even where it is also JSON; only the empty value and one too long for a length are undecided |
| `Contribute.JsonWins` | src/macp_sdk/multi_round.py:332-340 | a payload that is JSON and does not begin with byte 0x0A is decided as JSON |
| `Contribute.AmbiguityConfined` | src/macp_sdk/proto_registry.py:191-225 | a canonical encoding is JSON only for values of 9, 10, 13, 32, 91 or 123 bytes |
| `Contribute.AmbiguousLengths` | src/macp_sdk/proto_registry.py:191-225 | and each of those lengths has such a value, so the six are exact |
| `Contribute.DecisionIsStable` | src/macp_sdk/multi_round.py:318-340 | encoding a value canonically and deciding again gives that value exactly when it is not empty and its byte length fits 64 bits |
| `WireCode.WireMessage` | src/macp_sdk/canonical_json.py:555-579 | the encoder's loop writes the message's records in field order |
| `WireCode.EncodeField` | src/macp_sdk/canonical_json.py:563-578 | one field: singular, packed, repeated, or a map in key order |
| `WireCode.EncodeTable` | src/macp_sdk/canonical_json.py:567-569 | the loop over sorted keys writes one entry record each |
| `WireCode.EncodeItems` | src/macp_sdk/canonical_json.py:571-573 | the loop over strings, bytes or messages writes one record each |
| `WireCode.EncodePacked` | src/macp_sdk/canonical_json.py:574-576 | the other repeated scalars are one packed chunk |
| `WireCode.EncodeValue` | src/macp_sdk/canonical_json.py:590-599 | tag and value of one item, length-prefixed where the wire type is 2 |
| `WireCode.RawValue` | src/macp_sdk/canonical_json.py:602-619 | the bytes of a scalar: zigzag, sign extension, little endian, quiet NaN |
| `WireRecords.FlattenInjective` | src/macp_sdk/canonical_json.py:590-632 | records can be told apart in the bytes, whatever they hold |
| `WireScalars.NumbersInjective` | src/macp_sdk/canonical_json.py:602-632 | zigzag and sign-extended encodings are injective on their types' ranges |
| `WireInjective.MessageInjective` | src/macp_sdk/canonical_json.py:555-632 | messages of one type with the same bytes are equal field by field, maps as sets of entries, up to NaN bit patterns |
| `WireInjective.SameBytes` | src/macp_sdk/canonical_json.py:582-587 | messages equal in that sense have the same bytes: map insertion order never shows |
| `WireInjective.WireIff` | src/macp_sdk/canonical_json.py:555-632 | same bytes if and only if same message |
| `WireReader.MessageRead` | src/macp_sdk/canonical_json.py:555-632 | a reader written from the wire format reads back what the encoder writes: every field under its number with its value, map keys as field 1 and values as field 2, up to which NaN |
| `WireReader.RecordsRead` | src/macp_sdk/canonical_json.py:590-632 | tags, wire types, lengths and little-endian bytes are read back as the records written |
| `WireReader.NanWritten` | src/macp_sdk/canonical_json.py:610-612 | every NaN, of either sign, is written as the four or eight bytes of one quiet NaN, and other floats as their bits |
| `WireReader.EntriesAscend` | src/macp_sdk/canonical_json.py:567-587 | map entries are written in the order of the UTF-8 of their keys as JSON writes them |
| `WireReader.RangesAre` | src/macp_sdk/canonical_json.py:602-619 | the integers each kind of number may hold |
| `PayloadCheck.CheckVarints` | src/macp_sdk/canonical_json.py:635-642 | the entry point computes the reference acceptance; the mutual recursion terminates on every byte string |
| `PayloadCheck.ScanFields` | src/macp_sdk/canonical_json.py:645-679 | the field loop computes the reference walk |
| `PayloadCheck.CheckPacked` | src/macp_sdk/canonical_json.py:668-670 | the packed loop accepts exactly a run of good varints |
| `PayloadDepth.AcceptsWritten` | src/macp_sdk/canonical_json.py:635-694 | the check accepts the bytes of a message exactly when it is at most 100 levels deep |
| `PayloadTrees.TreeAccepted` | src/macp_sdk/canonical_json.py:635-694 | any field tree, with unknown fields, groups and varints of any spelling, passes exactly when every varint fits 64 bits and it is at most 100 levels deep |
| `PayloadTrees.FieldsWalked` | src/macp_sdk/canonical_json.py:645-679 | from any position the walk passes over the fields to their end exactly when their varints fit and their nesting is within the limit |
| `PayloadTrees.KnownIff` | src/macp_sdk/canonical_json.py:661-670 | which chunks are looked into: messages and maps, and as packed numbers the repeated varint kinds |
| `PayloadDepth.MessagePasses` | src/macp_sdk/canonical_json.py:635-694 | from any depth: exactly when the depth plus the message's levels is within the limit |
| `PayloadDepth.ScanRecords` | src/macp_sdk/canonical_json.py:645-679 | the walk over written records succeeds exactly when each record passes |
| `Sorting.SortIgnoresOrder` | src/macp_sdk/receipt.py:203-205 | items with different keys sort to one sequence, in whatever order they came |
| `Sorting.OrderedUnique` | src/macp_sdk/canonical_json.py:567 | strictly ordered sequences of the same items are equal |
| `Decimal.OfIntInjective` | src/macp_sdk/receipt.py:192-195 | no two integers are written alike |
| `Decimal.OfNatIff` | src/macp_sdk/receipt.py:192-195 | an integer is written as the one string of digits with its positional value and no needless zero |
| `Jcs.NameOrder` | src/macp_sdk/receipt.py:203-204 | comparing UTF-16 big-endian bytes is comparing UTF-16 code units (section 3.2.3 of RFC 8785) |
| `Jcs.Utf16Injective` | src/macp_sdk/receipt.py:203-204 | no two names have the same key |
| `JcsTrees.SamePrints` | src/macp_sdk/receipt.py:181-206 | equal trees of maps are printed alike, however their dicts were filled |
| `JcsTrees.PrintDelimits` | src/macp_sdk/receipt.py:181-206 | printed values with anything that cannot continue them after are told apart |
| `JcsTrees.PrintIff` | src/macp_sdk/receipt.py:181-206 | same canonical JSON if and only if same tree |
| `JcsJson.PrintIsJson` | src/macp_sdk/receipt.py:181-206 | what is printed is the text of a JSON tree, without whitespace and with members in code-unit order, that writes the value |
| `JcsJson.PrintableIff` | src/macp_sdk/receipt.py:181-206 | exactly the values without floats and with integers up to 2^53 - 1 in size are printed |
| `Commitment.CanonicalProjection` | src/macp_sdk/commitment_hash.py:124-291 | appending, sorting in place and joining give the text of the ordered members, or a refusal of fields outside the frozen set, in the installed types or on the wire |
| `Commitment.MembersOrdered` | src/macp_sdk/commitment_hash.py:247-291 | the members are in strictly ascending name order, so no name occurs twice |
| `CommitmentJcs.ProjectionIsJcs` | src/macp_sdk/receipt.py:240-257 | `_jcs(_project(p))` is byte for byte the canonical projection |
| `CommitmentJcs.ProjectionInjective` | src/macp_sdk/commitment_hash.py:247-291 | payloads with the same projection are the same in all nine fields, presence of `supersedes` included |
| `CommitmentJcs.HashBinds` | src/macp_sdk/commitment_hash.py:294-311 | equal hashes mean the same commitment or a collision of the digest |
| `CommitmentJcs.HashedText` | src/macp_sdk/commitment_hash.py:247-311 | the hash is "sha256:" and the digest of the label, a colon, and the JSON text that writes the nine-field projection |
| `CommitmentJcs.Unhashed` | src/macp_sdk/commitment_hash.py:184-262 | a commitment has no hash exactly when it or its `supersedes` carries a field outside the frozen set |
| `ReadCommitment.Read` | src/macp_sdk/receipt.py:260-287 | a value is read as a payload exactly when it is that payload's projection, and as nothing when it is no payload's |
| `ReadCommitment.FieldsIff` | src/macp_sdk/receipt.py:260-287 | being a projection is having each field with its value and no other |
| `Calendar.OrdinalOfDate` | src/macp_sdk/canonical_json.py:250-260 | every day number is the number of the date computed for it, by 400-, 100-, 4- and 1-year cycles |
| `Calendar.DateOfOrdinal` | src/macp_sdk/canonical_json.py:517-537 | and every valid date is the date of its number |
| `Calendar.MonthsBegin` | src/macp_sdk/canonical_json.py:517-537 | the day of the year on which each month begins, by Gregorian leap years |
| `Timestamp.MatchIff` | src/macp_sdk/canonical_json.py:118-121 | the pattern matches exactly what is rendered from well-formed groups, with those groups |
| `Timestamp.ParseIff` | src/macp_sdk/canonical_json.py:517-537 | a text parses to ms exactly when it writes that instant: at some legal offset, in either case, with any digits past the third |
| `Timestamp.ParseFormat` | src/macp_sdk/canonical_json.py:250-260 | exactly the instants of the years 1 to 9999 are formatted, and parse back to themselves |
| `Timestamp.SameInstant` | src/macp_sdk/canonical_json.py:517-537 | rewriting an instant at any legal offset does not change what it parses to |
| `Timestamp.OffsetRead` | src/macp_sdk/canonical_json.py:526-537 | the wall clock h hours and m minutes ahead of an instant written with "+hh:mm", or behind it with "-hh:mm", parses to the instant for offsets up to 23:59 and is refused for others |
| `Timestamp.MillisAre` | src/macp_sdk/canonical_json.py:532 | a fraction counts milliseconds by its first three digits, short ones filled up on the right |
| `Timestamp.EpochIsWritten` | src/macp_sdk/canonical_json.py:250-260 | instant 0 is "1970-01-01T00:00:00Z" |
| `Base64.LengthAgrees` | src/macp_sdk/canonical_json.py:492-514 | the length computed without decoding is that of the decoded bytes, and the same texts are refused, so the decoder's own error branch is dead |
| `Base64.DecodeEncode` | src/macp_sdk/canonical_json.py:492-499 | standard and URL-safe, padded and unpadded encodings decode to the original bytes |
| `Base64.SameBytes` | src/macp_sdk/canonical_json.py:492-499 | texts that decode to the same bytes spell the same symbols, but for unused bits of the last |
| `Base64.DecodeIff` | src/macp_sdk/canonical_json.py:492-514 | a text decodes to bytes exactly when it is their encoding in one alphabet, padded or not, up to the bits of the last symbol that no byte takes |
| `Base64.Alphabet` | src/macp_sdk/canonical_json.py:492-499 | the order of the 64 symbols |
| `EnvelopeData.SizeFirst` | src/macp_sdk/a2a.py:268-284 | measuring first gives the same envelope or the same error code as decoding first, for every data object and limit |
| `EnvelopeData.DecodedIff` | src/macp_sdk/a2a.py:268-284 | an envelope comes out exactly when the data object holds its fields, null and missing strings being empty, exactly one of the two payload members giving its bytes, and the size is within the limit |
| `EnvelopeData.TooLargeIff` | src/macp_sdk/a2a.py:268-284 | the payload is reported too large exactly when the object holds an envelope with more bytes than the limit |
| `EnvelopeData.EnvelopeRoundTrip` | src/macp_sdk/canonical_json.py:165-192 | an envelope in the supported years comes back with its exact payload, or is too large, as the limit says |
| `Projection.FailureUndone` | src/macp_sdk/base_projection.py:251-287 | an apply that raises leaves the state as it was |
| `Projection.KeptOrDropped` | src/macp_sdk/base_projection.py:175-213 | every envelope is dropped without a trace or entered in the transcript and applied |
| `Projection.EnteredIff` | src/macp_sdk/base_projection.py:175-213 | exactly an envelope of the mode, with no id or one that no entry has, whose message does not raise, enters the transcript |
| `Projection.ReplayDeterminism` | src/macp_sdk/base_projection.py:150-152 | for any feed, the full state equals that of a fresh projection fed only the transcript |
| `Projection.TranscriptDistinct` | src/macp_sdk/base_projection.py:205-213 | non-empty ids in a transcript are distinct and are the dedup set, and every entry is of the mode |
| `Projection.RedeliveryIgnored` | src/macp_sdk/base_projection.py:205-213 | delivering again anything already taken changes nothing |
| `Projection.SeenAsTold` | src/macp_sdk/base_projection.py:112-287 | anything seen in a mode's fields is what the transcript tells message by message, whatever else was in the feed |
| `Projection.PhaseIsLast` | src/macp_sdk/base_projection.py:289-313 | the phase is the last one a recorded message asked for, and "Committed" with a commitment |
| `Projection.CommittedIff` | src/macp_sdk/base_projection.py:252-257 | the phase is "Committed" exactly when the commitment is set |
| `Projection.CommitmentStays` | src/macp_sdk/base_projection.py:289-313 | no later feed takes a projection out of "Committed" |
| `Projection.BaseProjection.Enter` | src/macp_sdk/base_projection.py:175-213 | the gate: whether the envelope proceeds, and the entry it makes in dedup set and transcript |
| `Projection.BaseProjection.TakeCommitment` | src/macp_sdk/base_projection.py:252-257 | a commitment that parses sets commitment and phase; one that does not changes nothing |
| `Projection.BaseProjection.Undo` | src/macp_sdk/base_projection.py:260-287 | the rollback takes back exactly the entry and the id |
| `Projection.BaseProjection.AssignPhase` | src/macp_sdk/base_projection.py:289-313 | a phase is assigned unless the projection is committed |
| `Projection.BaseProjection.RecordAnomaly` | src/macp_sdk/base_projection.py:357-390 | one anomaly with the projection's own mode is appended |
| `Ledger.FirstWins` | src/macp_sdk/quorum.py:126-165 | the book holds exactly the first cast of each sender on each subject after it was opened |
| `Ledger.NothingLost` | src/macp_sdk/quorum.py:126-165 | casts on open subjects are the recorded ones plus the discarded ones |
| `Ledger.LastStands` | src/macp_sdk/projections.py:64-69 | a dict filled in order holds the last value written under each key |
| `DecisionModel.FirstVoteStands` | src/macp_sdk/projections.py:125-160 | in every reachable state a recorded vote is the first in the transcript for its proposal and sender after the proposal was known, and every such first is recorded |
| `DecisionModel.NoVoteLost` | src/macp_sdk/projections.py:125-160 | votes on known proposals are recorded votes plus anomalies |
| `DecisionModel.RecordsKept` | src/macp_sdk/projections.py:58-123 | proposals are the latest of each id in the transcript; evaluations and objections are all kept in order, a missing severity as "medium" |
| `DecisionModel.PhaseTold` | src/macp_sdk/projections.py:93-160 | before a commitment the phase is the initial one exactly until a proposal or evaluation, and "Voting" needs a vote |
| `DecisionModel.PhaseIsTold` | src/macp_sdk/projections.py:45-163 | which message asks for which phase, from "Proposal" on |
| `DecisionModel.ActIff` | src/macp_sdk/projections.py:58-160 | the messages that count as votes and as proposals, with the record each leaves, field by field |
| `DecisionModel.SecondVoteReported` | src/macp_sdk/projections.py:128-160 | exactly a second vote on a known proposal is reported, with both votes |
| `DecisionModel.DecisionReplays` | src/macp_sdk/projections.py:45-160 | replay determinism and the final phase, for this mode |
| `DecisionModel.MajorityUnique` | src/macp_sdk/projections.py:183-202 | at most one proposal has more than half of all non-abstain votes, so dict order cannot matter |
| `DecisionModel.MajorityByWords` | src/macp_sdk/projections.py:183-202 | which words count as approvals and which as abstentions, and the majority by them |
| `DecisionClass.DecisionProjection.ApplyEnvelope` | src/macp_sdk/base_projection.py:112-287 | the object's whole new state, and whether it raised, is that of the state function |
| `DecisionClass.DecisionProjection.ApplyModeMessage` | src/macp_sdk/projections.py:58-160 | each branch parses before it changes anything and then makes the mode's change |
| `DecisionClass.DecisionProjection.ApplyVote` | src/macp_sdk/projections.py:128-160 | the first vote on a known proposal is recorded, a later one reported, one on an unknown proposal ignored |
| `DecisionClass.DecisionProjection.VoteTotals` | src/macp_sdk/projections.py:167-181 | exactly the proposals that have votes, each with its number of positive votes |
| `DecisionClass.DecisionProjection.CountNonAbstain` | src/macp_sdk/projections.py:192-196 | the number of votes over all proposals that are not abstentions |
| `DecisionClass.DecisionProjection.MajorityWinner` | src/macp_sdk/projections.py:183-202 | the proposal with more than half of all non-abstain votes, and none only when there is none |
| `QuorumModel.FirstBallotStands` | src/macp_sdk/quorum.py:126-165 | in every reachable state a recorded ballot is the first of any kind in the transcript for its request and sender after the request was known |
| `QuorumModel.NoBallotLost` | src/macp_sdk/quorum.py:126-165 | ballots on known requests are recorded ballots plus anomalies |
| `QuorumModel.RequestsKept` | src/macp_sdk/quorum.py:93-107 | the known requests are the latest of each id in the transcript |
| `QuorumModel.BallotIff` | src/macp_sdk/quorum.py:108-124 | the messages that are ballots, with the vote each records |
| `QuorumModel.SecondBallotReported` | src/macp_sdk/quorum.py:126-165 | exactly a second ballot on a known request is reported, with both votes |
| `QuorumModel.PhaseTold` | src/macp_sdk/quorum.py:89-107 | "Pending" until a request, then "Voting" |
| `QuorumModel.QuorumReplays` | src/macp_sdk/quorum.py:75-165 | replay determinism and the final phase, for this mode |
| `QuorumModel.QuorumMeansNoneNeeded` | src/macp_sdk/quorum.py:268-279 | a known request has its quorum exactly when no more approvals are needed |
| `QuorumModel.NeededAreEnough` | src/macp_sdk/quorum.py:268-279 | when people who have not voted all approve, the quorum is there exactly when they are as many as reported needed |
| `QuorumModel.NeededAreLeast` | src/macp_sdk/quorum.py:268-279 | and no feed under the same bar reaches it with fewer new voters |
| `QuorumModel.UnknownRequest` | src/macp_sdk/quorum.py:185-234 | of an unknown request there is no quorum, nothing unreachable and nothing needed |
| `QuorumModel.QuorumStays` | src/macp_sdk/quorum.py:199-215 | a quorum once reached stays, over any later feed under the same bar |
| `QuorumModel.UnreachableIff` | src/macp_sdk/quorum.py:217-234 | a threshold is reported unreachable exactly when no continuation from the electorate reaches the quorum |
| `QuorumClass.QuorumProjection.ApplyEnvelope` | src/macp_sdk/base_projection.py:112-287 | the object's whole new state, and whether it raised, is that of the state function |
| `QuorumClass.QuorumProjection.ApplyModeMessage` | src/macp_sdk/quorum.py:93-124 | each branch parses before it changes anything and then makes the mode's change |
| `QuorumClass.QuorumProjection.CastBallot` | src/macp_sdk/quorum.py:126-165 | the first ballot across all kinds is recorded, a later one reported, one on an unknown request ignored |
| `PolicyThreshold.PercentageIsLeast` | src/macp_sdk/policy.py:512-517 | a whole percentage gives the least number that is enough, within the participants exactly up to 100 percent (or at the 32-bit cap) |
| `PolicyThreshold.UnsatisfiableIff` | src/macp_sdk/policy.py:505-525 | a known request is reported out of reach of every electorate exactly under a positive percentage of nobody or a positive threshold of unknown kind |
| `PolicyThreshold.OverHundredUnreachable` | src/macp_sdk/policy.py:512-517 | before any ballot the projection reports a percentage bar unreachable exactly when it is over 100 |
| `PolicyThreshold.CountIsBar` | src/macp_sdk/policy.py:519-525 | under "n_of_m", "count" or no type, the quorum takes exactly that many approvals up to the 32-bit limit, and before any ballot is unreachable exactly for fewer participants |
| `PolicyThreshold.NoBarIff` | src/macp_sdk/policy.py:490-511 | exactly the rules without a usable threshold leave the request's own number in force, and no others look at it |
| `PolicyThreshold.OwnNumberStands` | src/macp_sdk/policy.py:490-511 | under them the queries answer as without a policy |
| `Consensus.FullCountDecides` | integrations/claude-agent-sdk/src/claude_agent_sdk_macp/engine.py:185-190 | all ballots together always decide, by the threshold alone |
| `Consensus.DecidedEarly` | integrations/claude-agent-sdk/src/claude_agent_sdk_macp/engine.py:185-190 | a decision on a prefix is that of every longer prefix |
| `Consensus.SettledOutcome` | integrations/claude-agent-sdk/src/claude_agent_sdk_macp/engine.py:333-353 | a tally that stopped at its first decision, or at the end, has the outcome of the full count |
| `Consensus.Tally.Add` | integrations/claude-agent-sdk/src/claude_agent_sdk_macp/engine.py:181-183 | one more ballot cast, one more approval if it approves |
| `Consensus.SettleDecision` | integrations/claude-agent-sdk/src/claude_agent_sdk_macp/engine.py:319-341 | the loop stops at the first prefix that decides, with the outcome of the full count, having sent exactly the votes up to there |
| `Consensus.EachVoteSent` | integrations/claude-agent-sdk/src/claude_agent_sdk_macp/engine.py:333-341 | the votes sent are those cast, each with its voter, in participant order |
| `Consensus.SettleQuorum` | integrations/claude-agent-sdk/src/claude_agent_sdk_macp/engine.py:342-353 | the same for ballots, by the recommendation map |
| `Consensus.MessageSent` | integrations/claude-agent-sdk/src/claude_agent_sdk_macp/engine.py:64-69 | the message that goes out for each of the four recommendations |
| `Consensus.RunDecision` | integrations/claude-agent-sdk/src/claude_agent_sdk_macp/engine.py:257-263 | the committed outcome is approval exactly when all ballots together reach the threshold |
| `Consensus.RunQuorum` | integrations/claude-agent-sdk/src/claude_agent_sdk_macp/engine.py:257-263 | the same for a Quorum session, having sent the ballots in order exactly up to the first that decides |
| `Consensus.TallyMatchesProjection` | integrations/claude-agent-sdk/src/claude_agent_sdk_macp/engine.py:185-190 | after every ballot the tally approves exactly when the session's projection has its quorum, and rejects exactly when it reports the threshold unreachable |
| `Consensus.CommittedAsProjected` | integrations/claude-agent-sdk/src/claude_agent_sdk_macp/engine.py:342-353 | the session's projection, fed the request and exactly the ballots sent, has its quorum if and only if approval is committed, and reports the threshold unreachable if and only if rejection is |
| `Consensus.SessionMirrors` | integrations/claude-agent-sdk/src/claude_agent_sdk_macp/engine.py:343-352 | after any number of ballots the projection holds the request, the voters so far and the tally's approvals |
| `TaskModel.AlwaysOneAssignee` | src/macp_sdk/task.py:128-218 | in every reachable state a task has an assignee exactly when the slot names it, and the slot's task is known |
| `TaskModel.SlotReleased` | src/macp_sdk/task.py:128-218 | a held slot is freed exactly by its holder's TaskReject or a new TaskRequest for its task, and otherwise stays as it is |
| `TaskModel.AcceptsAccounted` | src/macp_sdk/task.py:151-181 | TaskAccepts on known tasks are slot acquisitions plus anomalies |
| `TaskModel.OthersUntouched` | src/macp_sdk/task.py:128-273 | a message changes no task but the one it names, except that the holder's reject unassigns the slot's task |
| `TaskModel.AuditKept` | src/macp_sdk/task.py:220-273 | updates, completions and failures are all kept in order, for known tasks or not |
| `TaskModel.RejectionsKept` | src/macp_sdk/task.py:183-218 | every reject is kept, marked by whether its sender held the slot when it came |
| `TaskModel.RecordsIff` | src/macp_sdk/task.py:183-273 | the record each message leaves, field by field, the sender standing in for an unnamed assignee |
| `TaskModel.TaskReplays` | src/macp_sdk/task.py:101-273 | replay determinism and the final phase, for this mode |
| `TaskModel.TasksTold` | src/macp_sdk/task.py:128-273 | every task's fields, status, progress and assignee are what the messages of the transcript made them |
| `TaskModel.SlotTold` | src/macp_sdk/task.py:128-218 | who holds the slot, from the transcript |
| `TaskModel.PhaseTold` | src/macp_sdk/task.py:114-273 | which message asks for which phase, from "Pending" on |
| `TaskModel.CompetingAcceptReported` | src/macp_sdk/task.py:151-181 | exactly an accept of a known task while the slot is held is reported, with who holds it |
| `TaskClass.TaskProjection.ApplyEnvelope` | src/macp_sdk/base_projection.py:112-287 | the object's whole new state, and whether it raised, is that of the state function |
| `TaskClass.TaskProjection.ApplyModeMessage` | src/macp_sdk/task.py:128-273 | each branch parses before it changes anything and then makes the mode's change |
| `TaskClass.TaskProjection.Accept` | src/macp_sdk/task.py:151-181 | the free slot is taken for a known task, a held one reported |
| `TaskClass.TaskProjection.Reject` | src/macp_sdk/task.py:183-218 | recorded always; the holder's reject frees the slot and unassigns its task |
| `TaskClass.TaskProjection.Request` | src/macp_sdk/task.py:131-149 | the task's record starts afresh, and the slot is freed if it named that task |
| `TaskClass.TaskProjection.Progress` | src/macp_sdk/task.py:220-238 | recorded always; a known task's status and progress change |
| `TaskClass.TaskProjection.Complete` | src/macp_sdk/task.py:240-256 | recorded always; a known task is completed and the phase assigned |
| `TaskClass.TaskProjection.Fail` | src/macp_sdk/task.py:258-273 | recorded always; a known task has failed and the phase is assigned |
| `MultiRoundModel.MultiRoundReplays` | src/macp_sdk/multi_round.py:348-432 | replay determinism with the same constructor arguments, and the final phase |
| `MultiRoundModel.ConvergenceSticky` | src/macp_sdk/multi_round.py:410-421 | after convergence no feed changes a value, the round or the outcome |
| `MultiRoundModel.ConvergedIff` | src/macp_sdk/multi_round.py:396-432 | over any feed, the projection has converged exactly when some Contribute that counts left all participants of that moment in agreement, and on the value the first such one left them with |
| `MultiRoundModel.StepConsistent` | src/macp_sdk/multi_round.py:399-432 | one message keeps "converged exactly when all agree, and on their value" unless it is an applied SessionStart that does not fit what is held, and then it breaks it |
| `MultiRoundModel.ConsistentIff` | src/macp_sdk/multi_round.py:396-432 | over any feed, that holds after every message if and only if every applied SessionStart fits: before convergence its participants do not already agree, after it they all hold the converged value |
| `MultiRoundModel.StartsFirstFit` | src/macp_sdk/multi_round.py:399-409 | where no SessionStart comes after a Contribute, all of them fit |
| `MultiRoundModel.StartAfterAgreement` | src/macp_sdk/multi_round.py:399-409 | a feed from a new projection after which all participants agree and it has not converged |
| `MultiRoundModel.StartAfterConvergence` | src/macp_sdk/multi_round.py:399-409 | a feed from a new projection after which it has converged and not all participants have contributed |
| `MultiRoundModel.RoundCountsChanges` | src/macp_sdk/multi_round.py:418-420 | the round is the number of new or changed values in the transcript |
| `MultiRoundModel.ValuesTold` | src/macp_sdk/multi_round.py:410-421 | a participant's value is that of its latest Contribute that decoded and was allowed before convergence |
| `MultiRoundModel.PartiesTold` | src/macp_sdk/multi_round.py:399-408 | participants and initiator are the constructor's until a SessionStart, whose empty sender names nobody |
| `MultiRoundModel.PhaseTold` | src/macp_sdk/multi_round.py:386-432 | "Pending", "Contributing" after a SessionStart, "Converged" when convergence comes |
| `MultiRoundModel.AllAgreeIff` | src/macp_sdk/multi_round.py:423-432 | all agree when there are participants and each holds one and the same value |
| `MultiRoundClass.MultiRoundProjection.ApplyEnvelope` | src/macp_sdk/base_projection.py:112-287 | the object's whole new state, and whether it raised, is that of the state function |
| `MultiRoundClass.MultiRoundProjection.ApplyModeMessage` | src/macp_sdk/multi_round.py:396-421 | SessionStart sets who takes part; a Contribute counts if it decodes, is new and comes from a participant |
| `MultiRoundClass.MultiRoundProjection.CheckConvergence` | src/macp_sdk/multi_round.py:423-432 | convergence is set exactly when all participants have contributed one and the same value |
| `Transport.CursorWithinOne` | src/macp_sdk/agent/transports.py:58-79 | over any run with one generator at a time the resume count is within one of the highest entry handed out, and each entry is the next or the latest again |
| `Transport.NoGaps` | src/macp_sdk/agent/transports.py:89-182 | with one generator at a time, over any yields, abandonments, errors and restarts, nothing is skipped; over any run in which nothing is skipped, a projection fed everything handed out is in the state of one fed exactly the log's first entries |
| `Transport.AbandonedAgain` | src/macp_sdk/agent/transports.py:71-79 | an entry that the consumer abandons is handed out again by the next generator |
| `Transport.FedAsLog` | src/macp_sdk/agent/transports.py:58-79 | entries handed out without a gap, however often they repeat, leave a projection as the log up to the highest does |
| `Transport.StartIsSafeIff` | src/macp_sdk/agent/transports.py:89-182 | after any run with one generator at a time, one further start, with no other beside a live generator after it, can never lead to a skipped entry if and only if no generator is alive, the adapter is stopped, or at most two entries are uncounted; and the count can never run ahead if and only if none is alive, it is stopped, or every entry is counted |
| `Transport.OverlapSkips` | src/macp_sdk/agent/transports.py:89-182 | from any such state with a generator alive, the adapter not stopped and more than two entries uncounted, a start has a continuation that skips an entry |
| `Transport.TwoAliveSkip` | src/macp_sdk/agent/transports.py:89-182 | in particular every log of three entries or more has a run from a new adapter in which an entry is skipped |
| `Transport.StopIsFinal` | src/macp_sdk/agent/transports.py:184-192 | nothing is handed out after a stop |
| `Transport.RetriesBounded` | src/macp_sdk/agent/transports.py:135-161 | a generator that nothing has reached survives exactly `max_retries` NOT_FOUND answers |
| `Transport.OtherErrorsEnd` | src/macp_sdk/agent/transports.py:135-161 | any other error, or any once something arrived or after a stop, ends it |
| `Transport.GrpcTransportAdapter.Subscribe` | src/macp_sdk/agent/transports.py:103-123 | a stream is opened after the entries counted so far, unless stopped |
| `Transport.GrpcTransportAdapter.Next` | src/macp_sdk/agent/transports.py:132-133 | an entry is counted when the consumer asks for the next one |
| `Transport.GrpcTransportAdapter.Receive` | src/macp_sdk/agent/transports.py:125-132 | an envelope of the session is numbered and yielded, one of another skipped, none after a stop |
| `Transport.GrpcTransportAdapter.TransportError` | src/macp_sdk/agent/transports.py:135-161 | only NOT_FOUND before anything arrived is retried, at most `max_retries` times |
| `Transport.GrpcTransportAdapter.StopDelivery` | src/macp_sdk/agent/transports.py:184-192 | the flag is set and nothing else |

## Left out

- gRPC clients, stream threads and queues, async twins, watchers, retry sleeps, OpenTelemetry and HTTP servers: I/O and concurrency plumbing. In `Transport` a stop is an event between steps of the generator, not a race inside one, and the shared stream handle is not modelled: each generator reads its own stream.
- The Protobuf library: `ParseFromString` of mode payloads is an arbitrary partial function, and `_message_from_json`, the `_clean_*` coercions, `json_format` and descriptor lookup stand behind the `codec` parameter of `EnvelopeData`.
- SHA-256, Ed25519, JWS headers and `_receipt_body` (a dict without one key, printed by the modelled `_jcs`).
- Floats: non-whole values of `effective_quorum_threshold`, and floats given to `_jcs`, which it refuses for anything but safe integers. In messages a float is its bit pattern. `majority_winner` compares 2 * count with the total on integers.
- Lone surrogates in Python strings, and dict keys that are not strings.
- `JsonText.ScanEscape`: with `decode` off a lone surrogate is returned as U+FFFD, where Python keeps the surrogate.
- `JsonText.ScanString`: with `decode` off a surrogate escape is written as U+FFFD, where Python keeps the surrogate; no caller reads that text.
- `PayloadDepth.AcceptsWritten`: for encodings below 2^64 bytes, since the check refuses a longer length.
- `EnvelopeData.FromData`: error codes but not message texts; the data object holds what the decoder looks at of each member.
- `Projection.BaseProjection.Undo`: compares the last transcript entry by value, where Python compares identity; the two agree because the entry was appended by the same call.
- `Transport.GrpcTransportAdapter.StopDelivery`: the source also half-closes the current stream, which is not modelled.
- The base class and its subclasses are objects that hold one another instead of inheriting, so each mode repeats the few lines of `apply_envelope` that dispatch to its handler.
- Logging, deprecated aliases, and the simple state queries of the projections (`is_accepted`, `vote_ratio`, `commitment_ready`, `can_accept` and the like): single expressions over the modelled state.
- `handoff.py`, `proposal.py`, `participant.py`, `dispatcher.py`, `strategies.py`, session helpers, validators and policy builders: the same shape as what is modelled, or plain dispatch and construction.
- `integrations/langgraph/src/langgraph_macp/node.py`: the same tally and loop as the engine modelled here. Evaluators, voters and the session calls of the engine are inputs: the list of votes or recommendations is given.
