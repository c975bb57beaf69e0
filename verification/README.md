# Collector service: verified model

The collector polls home devices, accepts pushed readings, and keeps both in bounded on-disk spools until
their consumers have fetched and acknowledged them. This project models its logic in Dafny and proves what
the rest of the system relies on. `dafny verify dfyconfig.toml` checks everything.

## What is modelled

**The spool** (`SegmentName`, `SpoolState`, `SpoolCap`, `SpoolHistory`, `SpoolServed`, `SpoolDelivery`,
`SpoolAcks`, `SpoolFraming`, `SpoolTorn`, `SpoolDirectory`). `SpoolDirectory` has the program's objects: a
directory that maps file names to bytes, and a spool whose methods change it and its own counters, with the
loops over an unordered listing. Each method is proved to perform the corresponding function on abstract states
in `SpoolState`. Runs are sequences of appends, serves, acknowledgements, clean reopens and crashes (an append
stopped at any byte of its payload, or after any number of the cap's deletions, and then an open on what is
left). `SpoolHistory` follows each run with a history of every piece ever written; conservation, order,
at-least-once delivery, the cap and the cost of torn writes are theorems over all runs.

**The endpoints over the spools** (`SpoolSet`, `AckText`, `Ingest`, `TextLines`, `Envelope`, `Text`, `Utf8`).
One spool per module, created on demand; the push endpoint's splitting, normalizing, routing and counting; the
drain and acknowledgement endpoints.

**JSON** (`Json`, `JsonCursor`, `JsonSpelling`, `JsonText`, `JsonGrammar`, `JsonReread`, `JsonRoundTrip`,
`JsonProperties`, `SortedMap`, `Digits`). `Json` defines the printed form and a parser on the text still to be
read; `JsonCursor` has the program's own shape, loops and recursion over a moving position and an output that
grows, and is proved equal to it. `JsonSpelling` and `JsonText` say, without the parser, what a document is as a
text (its tokens, the white space between them, the forms of each character of a string) and what it stands for
(RFC 8259); `JsonGrammar` proves that the parser accepts exactly those texts, with exactly those meanings.
Objects are sorted key lists, as a `BTreeMap` keeps them. A float is known by the text written for it;
what reads text as a float is a parameter. A theorem about a value with floats asks only that the reader reads
the display of each float of that value as that float (`JsonRoundTrip.ReadsBack`). For a parsed value it does,
if reading the display of a number it has read gives that number again (`JsonProperties.ParsedReadsBack`).

**Cryptography** (`AesBox`, `AesSbox`, `AesField`, `AesCipher`, `Rounds`, `AesRounds`, `AesBlock`, `AesKey`,
`AesInPlace`, `AesExample`, `Cbc`, `AesCbc`, `Words`, `BigEndian`, `MessagePadding`, `AbcBlock`, `Sha2`,
`Sha256`, `Sha256Constants`, `Sha256Example`, `Sha1`, `Sha1Example`, `Base64`).
The loops work on arrays in place and are proved against FIPS 197 (sections 4.2, 5.1 to 5.3), SP 800-38A
(section 6.2), FIPS 180-4 (sections 4.1, 5.1.1, 6.1.2 and 6.2.2) and RFC 4648 (section 4). The hash loops are
written over any algebra of words and then given 32-bit words, so that their proofs do not depend on what the
word operations are. The tables are proved to be what the standards define (the substitution box from field
inverses, the constants of SHA-256 from roots of primes), and the published examples of AES, SHA-256 and SHA-1
are proved from the definitions, step by step.

**Their users** (`Klap`, `BasicAuth`, `Inventory`, `Ipv4`, `Cidr`): the KLAP session with its wrapping sequence
number, HTTP Basic authentication (RFC 7617, section 2), the persisted device inventory, and address blocks,
compared with the arithmetic in the site assertions. `Division` has the facts about quotients they share.

## Where the obvious claim is too strong

- A late acknowledgement after a reopen can delete a batch nobody was given, because an emptied directory
  reuses its numbers (`SpoolDelivery.LateAckLosesUnservedBatch`). The documentation promises at-least-once
  delivery without a condition; `SpoolAcks.AtLeastOnceExactlyWhen` gives the exact one.
- An integral float comes back from JSON as an integer, a negative zero even with another text, so a line that
  sends one is not in normal form after the first normalization (`JsonRoundTrip.RoundTripExactly`,
  `Envelope.NormalizeIsNormalForm`).
- The JSON parser accepts more than RFC 8259 allows, and `JsonGrammar.ParsesExactly` says exactly what: control
  characters as they are in strings, a plus sign for a leading zero in an escape, lone surrogates (read as the
  replacement character), integers with leading zeros, and whatever other number text the float reader takes.
- The spool's own description says a torn trailing line is ignored. The code ignores it only while it is
  still the end of the file: an append after a reopen glues the next line to it, and a line nobody appended is
  served (`SpoolTorn.TornLineServed`). An append keeps its lines exactly when it finds the open file empty or
  ending in a newline (`SpoolTorn.AppendKeptExactlyWhen`, and for whole runs `SpoolTorn.UndamagedExactlyWhen`);
  `SpoolFraming.CrashBound` bounds the cost by one line for each crash.
- Segment numbers of seventeen digits name files no listing finds (`SpoolDelivery.RotateKeepsBytesExactlyWhen`),
  and a spool opened on the last sixteen-digit name is one step from there (`SpoolDelivery.LastNameLosesBytes`).
- A crash can leave more than the cap pending, by no more than the payloads cut short, until the next append
  (`SpoolCap.RunNearCap`).
- The 32 signature bytes of a KLAP reply are not checked (`Klap.OpensExactly`).
- A colon in the configured user name or password makes another pair acceptable, and nothing else does
  (`BasicAuth.AcceptsOnlyConfigured`, `BasicAuth.ColonIsAmbiguous`).
- A last-seen time beyond 64 signed bits is clamped when saved (`Inventory.LoadsBackExactlyWhen`,
  `Inventory.RestartKeepsMerge`).
- Session vectors repeat after 2^32 calls (`Klap.VectorsRepeatExactly`).

## Model

| member | source | states |
|---|---|---|
| `SegmentName.ParseName` | service/src/spool.rs:36-47 | Parsing a printed segment name gives its number back exactly while the number has at most sixteen digits, and is refused beyond |
| `SegmentName.NameParse` | service/src/spool.rs:40-47 | The only names accepted are those printing produces for their number |
| `SegmentName.NameIs` | service/src/spool.rs:36-38 | A name is "seg-", the number in sixteen digits with zeros in front, and ".jsonl" |
| `SegmentName.NamesInOrder` | service/src/spool.rs:36-38 | Names compare as texts exactly as their numbers do |
| `SpoolDirectory.Spool.Open` | service/src/spool.rs:50-70 | Opening rebuilds the next number and the open length from the directory alone and changes no file |
| `SpoolDirectory.Spool.LargestSegment` | service/src/spool.rs:52-58 | The loop over the directory, in whatever order, finds the greatest listed number |
| `SpoolDirectory.Spool.Append` | service/src/spool.rs:74-100 | The new state is the old one with the payload written, rotated if full, and shed to the cap; returns the lines written; no lines change nothing |
| `SpoolDirectory.Spool.WriteLines` | service/src/spool.rs:79-94 | The open file grows by exactly the non-empty lines, each with its newline, and the length in memory stays true |
| `SpoolDirectory.Spool.NextBatch` | service/src/spool.rs:105-124 | Serves the lowest-numbered segment's text without a torn tail, closing the open file first when nothing is closed |
| `SpoolDirectory.Spool.TrimTorn` | service/src/spool.rs:115-122 | The backwards search for a newline leaves the longest prefix that is empty or ends a line |
| `SpoolDirectory.Spool.Ack` | service/src/spool.rs:129-139 | Removes exactly the named segment when it is listed; any other identifier changes nothing and answers false |
| `SpoolDirectory.Spool.Stats` | service/src/spool.rs:141-163 | The reported total and count are the true byte total and number of listed segments |
| `SpoolDirectory.Spool.Rotate` | service/src/spool.rs:256-265 | Moves the open file, byte for byte, to the next number's name and advances that number by one, or does nothing when it is empty |
| `SpoolDirectory.Spool.OldestSegment` | service/src/spool.rs:267-280 | Whatever the listing order, the segment found is the one with the least number |
| `SpoolDirectory.Spool.Scan` | service/src/spool.rs:286-298 | One pass computes the true total and collects every listed segment once |
| `SpoolDirectory.Spool.SmallestFirst` | service/src/spool.rs:302-303 | The first segment after sorting has the least number |
| `SpoolDirectory.Spool.EnforceCap` | service/src/spool.rs:285-307 | The loop terminates and leaves the state the cap prescribes |
| `SpoolDirectory.Spool.Drop` | service/src/spool.rs:303-305 | Deletes the oldest segment and counts it |
| `SpoolCap.EnforceCapShortestPrefix` | service/src/spool.rs:282-307 | The cap removes a prefix of the oldest segments, each while what remained from it on was over the cap, until it is met or nothing closed is left; the open file is untouched and every removal counted |
| `SpoolCap.AppendMeetsCap` | service/src/spool.rs:74-100 | Appending any non-empty batch, from any state, ends with at most the cap pending |
| `SpoolCap.CapHoldsExactlyWhen` | service/src/spool.rs:95-98 | Every such append meets the cap if and only if the segment size is at most one more than the cap |
| `SpoolCap.ValidatedConfigMeetsCap` | lib/site-assertions.nix:543-548 | The validated configuration, twice the segment size within the cap, satisfies that condition |
| `SpoolCap.StepKeepsCap` | service/src/spool.rs:74-139 | Appending, serving, acknowledging and reopening keep the pending bytes within the cap |
| `SpoolCap.RunMeetsCap` | service/src/spool.rs:74-139 | In every run without a crash the pending bytes are within the cap after each operation |
| `SpoolCap.CrashAddsAtMost` | service/src/spool.rs:74-100 | From any state, an append cut short by a crash, wherever it stops, adds at most its payload to the pending bytes |
| `SpoolCap.RunNearCap` | service/src/spool.rs:74-139 | In every run, crashes included, the pending bytes exceed the cap by at most the payloads of the appends cut short since the last completed one |
| `SpoolCap.DropsOldestFirst` | service/src/spool.rs:302-305 | However early the loop stops, everything removed is older than everything kept, and kept segments are unchanged |
| `SpoolHistory.Conservation` | service/src/spool.rs:50-139 | Over every run of appends, serves, acks, reopens and crashes, the history's parts are exactly what was written in order, and the directory is exactly the parts that were not acknowledged, dropped or hidden |
| `SpoolHistory.StepAccounts` | service/src/spool.rs:74-139 | Each operation, crashes included, keeps the directory accounted for by the history, the numbers in append order and the next number fresh |
| `SpoolHistory.ReopenAccounts` | service/src/spool.rs:50-70 | Reopening, which restarts from the largest number present, keeps the account and freshness |
| `SpoolHistory.RawWholes` | service/src/spool.rs:84-92 | The bytes of a completed append are its non-empty lines, each ended |
| `SpoolHistory.RawCut` | service/src/spool.rs:84-92 | An append stopped at any byte leaves whole lines and at most one start of a line, and exactly those bytes |
| `SpoolDelivery.ServedInOrder` | service/src/spool.rs:105-124 | Between two opens served numbers never decrease, and one number always carries one text |
| `SpoolServed.ServedInLogOrder` | service/src/spool.rs:105-124 | In every run, reopens and crashes included, each batch is one part of the log without its torn tail, so it is empty or ends in a newline, and the batches follow the order of the log |
| `SpoolServed.TraceExtends` | service/src/spool.rs:74-139 | Whatever a run does later, closed parts of the log keep their bytes and, while listed, their numbers, and the open file is only added to |
| `SpoolAcks.AtLeastOnceExactlyWhen` | docs/integration.md:154-169 | In every run, each part of the log that left through an acknowledgement had itself been handed out before, under the number acknowledged, if and only if every acknowledgement that deletes a segment names one handed out since it was closed |
| `SpoolAcks.SafeExactlyWhen` | docs/integration.md:154-169 | The same condition, for the history's marks of what was handed out |
| `SpoolAcks.RunMarked` | service/src/spool.rs:105-139 | In every run the segments handed out since they were closed are exactly the listed ones the history marks as served |
| `SpoolAcks.AtLeastOnce` | docs/integration.md:154-169 | When every acknowledgement names a batch handed out since the last open, a part that left through one was itself handed out before, under that number |
| `SpoolAcks.ObedientIsCareful` | service/src/spool.rs:105-139 | Naming batches handed out since the last open meets the exact condition |
| `SpoolDelivery.LateAckLosesUnservedBatch` | service/src/spool.rs:50-65 | A concrete run in which a late acknowledgement after a reopen deletes a batch whose text no batch of the run has |
| `SpoolDelivery.DropsAreCounted` | service/src/spool.rs:303-305 | The drop counter moves by exactly the number of parts that operation dropped |
| `SpoolDelivery.NothingHidden` | service/src/spool.rs:256-263 | A run of fewer than 10^16 operations never reaches a name the listing misses |
| `SpoolDelivery.RotateKeepsBytesExactlyWhen` | service/src/spool.rs:256-265 | Closing keeps the bytes reachable if and only if the next number has at most sixteen digits |
| `SpoolDelivery.LastNameLosesBytes` | service/src/spool.rs:50-65 | Opening a directory that holds the last sixteen-digit name gives a state in which closing the open file loses all its bytes |
| `SpoolDelivery.ServedWhat` | service/src/spool.rs:105-124 | Asking for a batch changes nothing while something is closed, and otherwise closes the open file and serves that; asking again serves the same |
| `SpoolDelivery.AckRemoves` | service/src/spool.rs:126-139 | The answer to an acknowledgement is true exactly when it removed something, and only a segment of that very name is removed |
| `SpoolDelivery.OpenContinues` | service/src/spool.rs:50-70 | Opening keeps all files and continues one past the largest number listed, or at one, with no drop counted |
| `SpoolDelivery.CountIsLines` | service/src/spool.rs:79-94 | The number an append returns is the number of its lines that are not empty |
| `SpoolFraming.TrimEndsLine` | service/src/spool.rs:115-122 | A served text is empty or ends in a newline, is a prefix of the file, and what is cut off holds no newline |
| `SpoolFraming.ServedLines` | service/src/spool.rs:105-124 | Splitting a served batch gives one line for each line written in full, each ending with that line, and at most one damaged line per torn write |
| `SpoolFraming.FramedExactlyWhen` | service/src/spool.rs:105-124 | Splitting a served batch gives back exactly the lines completed in it if and only if no torn bytes are followed by a completed line |
| `SpoolFraming.FramingExact` | service/src/spool.rs:84-92 | In particular it does without torn writes |
| `SpoolFraming.CompletedLinesKept` | service/src/spool.rs:11-12 | Whatever came before and after, a completed line is served verbatim in its place if and only if the file then was empty or ended in a newline, that is, unless torn bytes come directly before it |
| `SpoolFraming.CrashBound` | service/src/spool.rs:11-12 | Over every run with k crashes, each at any byte of an append, at most k lines of the whole stream are not verbatim appended lines |
| `SpoolTorn.UndamagedExactlyWhen` | service/src/spool.rs:11-12 | In every run, no line of the whole stream is damaged if and only if every operation that completes a line finds the open file empty or ending in a newline |
| `SpoolTorn.AppendKeptExactlyWhen` | service/src/spool.rs:74-94 | An append of at least one line is read back verbatim in its place, whatever the run does before and after, if and only if it found the open file empty or ending in a newline |
| `SpoolTorn.ServedVerbatim` | service/src/spool.rs:105-124 | In a run that meets that condition, crashes included, each batch splits into exactly the lines completed in its part of the log, a contiguous run of all lines completed |
| `SpoolTorn.TornLineServed` | service/src/spool.rs:11-12 | A concrete run, one crash within a line, one append and one serve, whose only batch is a line nobody appended |
| `SpoolSets.SpoolSet.constructor` | service/src/spool.rs:184-207 | Existing directories with valid names reopen at startup, each on its own files |
| `SpoolSets.SpoolSet.ForModule` | service/src/spool.rs:211-229 | A valid name has a spool afterwards, an invalid one is refused, and no module's pending data changes |
| `SpoolSets.SpoolSet.AppendTo` | service/src/spool.rs:74-100 | Appending to one module's spool leaves every other module's as it was |
| `SpoolSets.SpoolSet.Deliver` | service/src/api.rs:431-440 | Every module named in the routes gets its lines, every other module is unchanged |
| `SpoolSets.SpoolSet.IngestBody` | service/src/api.rs:397-445 | Accepted plus rejected is the number of non-blank lines, and each module's stream grows by exactly its accepted lines in body order; a body made of acceptable lines, however each is ended and with or without an end after the last, is accepted whole |
| `SpoolSets.SpoolSet.ReadingsNext` | service/src/api.rs:334-361 | Bad requests, empty streams and batches are told apart, a batch carries the served segment's name and text, and only the named module's stream may rotate |
| `SpoolSets.SpoolSet.ReadingsAck` | service/src/api.rs:363-395 | A document naming a module and a batch removes that batch from that module only, and answers whether it was there |
| `AckText.AcknowledgementNames` | service/src/api.rs:363-395 | An acknowledgement with its two members in either order, any white space before, between and after its tokens and any escapes in its strings, names its module and its batch |
| `AckText.ConsumerFormat` | tests/collector-vm.nix:487 | So does the text as the consumer prints it, character for character, for all names without quotes, backslashes and control characters |
| `AckText.NamesExactly` | service/src/api.rs:363-381 | A text is an acknowledgement of a batch of a module if and only if it is the text of an object whose "module" and "batchId" are those strings |
| `Ingest.Route` | service/src/api.rs:409-424 | The loop counts every non-blank line once and collects exactly each module's accepted lines in order |
| `TextLines.LinesExactly` | service/src/api.rs:412 | The lines of a body are some list if and only if, each ended by a newline with or without a carriage return, or not at all if it is the last and not empty, they make up the body |
| `Ingest.AcceptedInOrder` | service/src/api.rs:412-421 | What a module is sent is the envelope of every line accepted for it, once each and in the order of the lines |
| `Ingest.CountsExactly` | service/src/api.rs:409-424 | The counts are the numbers of lines accepted and of lines that are not blank |
| `Text.TrimParts` | service/src/api.rs:413 | Trimming takes only blanks off the two ends, and leaves none there |
| `Text.BlankExactly` | service/src/api.rs:413 | The blanks are the twenty-five characters of `White_Space` |
| `Ingest.RoutedNames` | service/src/api.rs:417-419 | Lines are only ever routed to valid module names |
| `Ingest.AcceptedAreLines` | service/src/api.rs:412-421 | Every line routed to a spool is non-empty and free of newlines |
| `Ingest.EnvelopesFramed` | service/src/spool.rs:74-124 | In every sequence of push bodies, polls, drains, acknowledgements and restarts, each batch splits into consecutive envelopes of those accepted and built for the module, byte for byte |
| `Envelope.ReadingIsLine` | service/src/envelope.rs:31-42 | An envelope is built exactly for a non-empty object of values, and is a non-empty text without control characters |
| `Envelope.ReadingContent` | service/src/envelope.rs:31-42 | Parsing a built envelope gives back its four fields, as their values come back, and no other |
| `Envelope.DeviceContent` | service/src/envelope.rs:45-72 | The address is always there and the other fields exactly when known; tags are there exactly when one is usable, each with the last usable value given for it |
| `Envelope.DeviceReadsBack` | service/src/envelope.rs:45-72 | A device block is printed and read back unchanged |
| `Envelope.NormalizeAcceptsExactly` | service/src/envelope.rs:78-101 | A line is accepted if and only if its bytes fit the limit and it is an object with a valid module name, a non-empty object of values and, if any, an integer timestamp |
| `Envelope.NormalizedIsLine` | service/src/envelope.rs:78-101 | An accepted line names a valid module and is a non-empty text without control characters |
| `Envelope.NormalizedContent` | service/src/envelope.rs:78-101 | A line goes to the module it names, and what is stored holds what was sent, as it comes back, plus the clock value exactly when no timestamp was sent |
| `Envelope.NormalizeIsNormalForm` | service/src/envelope.rs:78-101 | Normalizing a normalized line at any later clock value gives it back if and only if its bytes are still within the limit and no float sent was a negative zero |
| `JsonRoundTrip.RoundTrip` | service/src/json.rs:73-148 | Parsing a printed float-free value gives the value back |
| `JsonRoundTrip.RoundTripExactly` | service/src/json.rs:73-148 | Over all values, it does so if and only if every float is finite and keeps a fraction or is beyond 64 signed bits |
| `JsonRoundTrip.ParseOfPrint` | service/src/json.rs:73-148 | Parsing any printed value gives the value with each float in the form its text reads as |
| `JsonRoundTrip.ParsesSpaced` | service/src/json.rs:139-154 | So does the printed value with any white space before, between and after its tokens |
| `JsonGrammar.ParsesExactly` | service/src/json.rs:139-345 | A text parses to a value if and only if it is a document that stands for the value: its tokens with white space anywhere around them, characters of strings in any of their forms, members in any order of which the last under a key counts |
| `JsonText.ParseDoc` | service/src/json.rs:150-345 | Every document, with any white space before its tokens and any text after that does not extend a number, parses to what it stands for, and parsing stops exactly at its end |
| `JsonGrammar.ValueBack` | service/src/json.rs:150-345 | Whatever was parsed is a document at the start of the text, up to where parsing stopped |
| `JsonRoundTrip.IntegralFloatChanges` | service/src/sensors.rs:345-356 | An integral float comes back as an integer with the same text |
| `JsonRoundTrip.NegativeZeroChanges` | service/src/json.rs:87-93 | A negative zero comes back as zero, and its text changes |
| `JsonReread.RereadStable` | service/src/json.rs:179-214 | A value comes back the same exactly when all its floats do |
| `JsonReread.PrintRereadExactly` | service/src/json.rs:79-119 | Printing what came back gives the same text if and only if no float is a negative zero |
| `JsonRoundTrip.ParsePrinted` | service/src/json.rs:73-345 | The printed form followed by any text that does not extend a number parses to what the value comes back as and stops exactly at its end |
| `JsonSpelling.ParseQuoted` | service/src/json.rs:216-289 | A string parses to its characters in whichever form each is written, surrogate pairs and lone surrogates included, and stops at its closing quote |
| `JsonGrammar.StringBack` | service/src/json.rs:216-289 | Whatever was read as a string is such characters between quotes |
| `JsonRoundTrip.ParsePrintedString` | service/src/json.rs:121-137 | A printed string, whatever its characters, parses back and stops at its closing quote |
| `JsonRoundTrip.PrintIsTokens` | service/src/json.rs:79-137 | The printed form is the document's tokens and nothing between them |
| `JsonRoundTrip.ParsePrintedInt` | service/src/json.rs:179-214 | Every 64-bit integer parses back from its printed form |
| `JsonRoundTrip.ParsePrintedFloat` | service/src/json.rs:87-93 | A float, finite or not, parses from its printed form as an integer, a float or null, and stops at its end |
| `JsonProperties.ParsedProper` | service/src/json.rs:315-345 | Objects the parser returns have unique sorted keys at every level |
| `JsonProperties.ParsedReadsBack` | service/src/json.rs:179-214 | Every float in a parsed value is read back from its display, whenever the reader reads the display of a number it has read as that number |
| `JsonProperties.PrintVisible` | service/src/json.rs:79-137 | No printed value contains a control character, and none is empty |
| `JsonProperties.ValueExtend` | service/src/json.rs:139-345 | The parser is self-delimiting: a parsed value and its end do not change when the text goes on |
| `JsonProperties.NoPrefixParses` | service/src/json.rs:139-148 | No proper prefix of a printed object or array is a complete document |
| `JsonCursor.SkipWs` | service/src/json.rs:150-154 | The loop over white space stops where the specification says |
| `JsonCursor.ReadLiteral` | service/src/json.rs:170-177 | The word comparison at a position agrees with the specification |
| `JsonCursor.ReadNumber` | service/src/json.rs:179-214 | Scanning and converting at a position agree with the specification, the fall-back to a float included |
| `JsonCursor.SkipNumber` | service/src/json.rs:184-194 | The loop takes the longest run of number characters and notes whether any was not a digit |
| `JsonCursor.ReadString` | service/src/json.rs:216-289 | The string loop, with its position, agrees with the specification on the rest of the text |
| `JsonCursor.ReadEscape` | service/src/json.rs:230-277 | Every escape is decoded as specified and consumed exactly |
| `JsonCursor.ReadUnicode` | service/src/json.rs:240-274 | Surrogate pairs are combined, lone surrogates replaced, and truncated ones refused |
| `JsonCursor.ReadValue` | service/src/json.rs:156-168 | The recursive descent over a moving position returns the specified value and end |
| `JsonCursor.ReadItems` | service/src/json.rs:291-313 | The loop over array items agrees with the specification |
| `JsonCursor.ReadObject` | service/src/json.rs:315-345 | The loop over members, inserting into the map, agrees with the specification |
| `JsonCursor.ReadDocument` | service/src/json.rs:139-148 | The loops accept and return what the specification does: the whole text must be one value, with only white space around it |
| `JsonCursor.WriteEscaped` | service/src/json.rs:121-137 | The character loop appends exactly the quoted form |
| `JsonCursor.Write` | service/src/json.rs:79-119 | The recursive printer appends exactly the printed form to what is already there |
| `SortedMap.InsertSorted` | service/src/json.rs:17 | Insertion keeps keys unique and in order |
| `SortedMap.GetInsert` | service/src/json.rs:17 | A lookup after an insertion sees the new value under its key and the old map elsewhere |
| `SortedMap.Extensional` | service/src/json.rs:17 | A sorted map is determined by its lookups |
| `SortedMap.LessExactly` | service/src/json.rs:17 | A key comes before another where they first differ, or where it ends and the other goes on |
| `Utf8.EncodeInjective` | service/src/http.rs:280 | Different texts have different bytes |
| `Utf8.EncodeConcat` | service/src/http.rs:280 | Characters are encoded one after the other |
| `Utf8.UnitsExamples` | service/src/http.rs:280 | The first and last characters of each length have the bytes that RFC 3629 gives them |
| `Utf8.NoNewlineBytes` | service/src/spool.rs:88-89 | A text without a newline has no newline byte |
| `AesBox.SboxInverse` | service/src/crypto.rs:148-175 | The substitution box is a bijection and the published inverse box undoes it, both ways round |
| `AesSbox.SubDefined` | service/src/crypto.rs:148-167 | Each bit of the box's entry for a byte is the sum of five bits of the byte's inverse in the field (zero for zero) and a bit of 0x63, as section 5.1.1 of FIPS 197 defines the box |
| `AesSbox.HasInverse` | service/src/crypto.rs:148-167 | Every byte but zero has an inverse |
| `AesSbox.InverseUnique` | service/src/crypto.rs:181-191 | And only one |
| `AesSbox.MulCommutes` | service/src/crypto.rs:181-191 | Multiplication in the field is commutative |
| `AesBox.InvSbox` | service/src/crypto.rs:169-175 | The loop that inverts the box computes that inverse, for any table that has one |
| `AesField.Gmul` | service/src/crypto.rs:181-191 | The shift-and-add loop computes the field product |
| `AesField.MulAdd` | service/src/crypto.rs:177-191 | Multiplication distributes over addition |
| `AesField.Undo` | service/src/crypto.rs:237-281 | The two column matrices multiply to the identity on one byte |
| `AesCipher.InvMixOfMix` | service/src/crypto.rs:236-281 | The inverse column transformation undoes the forward one |
| `AesCipher.MixOfInvMix` | service/src/crypto.rs:236-281 | And the forward one undoes the inverse |
| `AesRounds.ShiftInverse` | service/src/crypto.rs:226-260 | The two row shifts undo each other |
| `AesRounds.BlockInverse` | service/src/crypto.rs:216-285 | Block encryption and decryption are two-sided inverses for every block and any round keys |
| `Rounds.DecryptOfEncrypt` | service/src/crypto.rs:216-285 | For any invertible layers, the inverse rounds in reverse order undo the rounds |
| `Rounds.EncryptOfDecrypt` | service/src/crypto.rs:216-285 | And the rounds undo the inverse rounds |
| `AesBlock.XorInto` | service/src/crypto.rs:217-219 | Adds sixteen bytes into the block in place |
| `AesBlock.Substitute` | service/src/crypto.rs:222-224 | Replaces every byte of the block by its table entry in place |
| `AesBlock.ShiftInPlace` | service/src/crypto.rs:226-231 | The nested loops rotate each row left by its number |
| `AesBlock.UnshiftInPlace` | service/src/crypto.rs:255-260 | The scattering loops rotate each row right by its number |
| `AesBlock.MixInPlace` | service/src/crypto.rs:234-241 | The column loop multiplies every column by the fixed matrix |
| `AesBlock.UnmixInPlace` | service/src/crypto.rs:271-282 | The column loop multiplies every column by the inverse matrix |
| `AesKey.NextRow` | service/src/crypto.rs:206-211 | The two loops build a round key from the row before and the word that starts it |
| `AesKey.NextKey` | service/src/crypto.rs:198-211 | One pass builds a row from the one before and its rotated, substituted last word with the round constant |
| `AesKey.NextIsScheduled` | service/src/crypto.rs:193-214 | Such a pass takes each round key of the standard's word recurrence to the next |
| `AesKey.ExpandKey` | service/src/crypto.rs:193-214 | All eleven round keys are those of the recurrence in section 5.2 of FIPS 197 |
| `AesInPlace.EncryptInPlace` | service/src/crypto.rs:216-247 | The round loop on an array computes the cipher's state after the last round |
| `AesInPlace.DecryptInPlace` | service/src/crypto.rs:249-285 | The descending round loop computes the inverse cipher |
| `AesExample.EncryptExample` | service/src/crypto.rs:476-486 | The example of FIPS 197, appendix C.1: that block, under the schedule of that key, encrypts to that block |
| `Cbc.UnchainOfChain` | service/src/crypto.rs:293-333 | Unchaining undoes chaining over any block cipher with an inverse, block by block |
| `Cbc.ChainOfUnchain` | service/src/crypto.rs:293-333 | And chaining undoes unchaining |
| `Cbc.ChainAt` | service/src/crypto.rs:293-305 | Each block of the chain is the block cipher's answer to that block of the data added to the chain's block before it, or to the vector |
| `Cbc.UnpadOfPad` | service/src/crypto.rs:290-292 | Padding always comes off again |
| `Cbc.PadOfUnpad` | service/src/crypto.rs:334-340 | Whatever has its padding accepted is the padded form of what is left |
| `Cbc.PadIs` | service/src/crypto.rs:290-292 | Padding is one to sixteen bytes up to the next multiple of sixteen, each with their number |
| `Cbc.StripPadding` | service/src/crypto.rs:334-340 | The checks on the last byte and the loop over the padding agree with that definition |
| `Cbc.DecryptExactly` | service/src/crypto.rs:288-341 | Over any block cipher, decryption accepts exactly what encryption produces |
| `AesCbc.EncryptData` | service/src/crypto.rs:288-305 | The loops compute CBC encryption of the padded text under the expanded key, which `AesCbc.EncryptedAt` gives block by block |
| `AesCbc.DecryptData` | service/src/crypto.rs:309-341 | The loops compute CBC decryption and padding removal, refusing bad lengths and bad padding |
| `AesCbc.DecryptsExactly` | service/src/crypto.rs:288-341 | For every key, vector and byte strings, decryption of c gives p if and only if encryption of p gives c |
| `AesCbc.EncryptedAt` | service/src/crypto.rs:288-305 | Each ciphertext block is the cipher, under the schedule of the key, of that block of the padded text added to the ciphertext block before it, or to the vector |
| `MessagePadding.LeastPadding` | service/src/crypto.rs:130-134 | The number of zero bytes is the least that leaves exactly the length field |
| `MessagePadding.Layout` | service/src/crypto.rs:125-143 | The padded message is the message, a byte 0x80, zeros, and in its last eight bytes the number of bits |
| `MessagePadding.Injective` | service/src/crypto.rs:127-143 | Different messages have different padded forms, even where the bit length wraps |
| `MessagePadding.PadZeros` | service/src/crypto.rs:129-133 | The loop terminates with exactly that many zeros |
| `MessagePadding.PaddedBlocks` | service/src/crypto.rs:127-143 | The result is the padded message cut into blocks of sixty-four bytes |
| `Words.CopyWords` | service/src/crypto.rs:70-73 | Copying each word into its place yields the bytes of all words in order |
| `BigEndian.ValueOfEncode` | service/src/crypto.rs:134 | A number below the width is recovered from its big-endian bytes |
| `BigEndian.FirstByteLeads` | service/src/crypto.rs:134 | The first byte is the most significant |
| `Sha2.LoadBlock` | service/src/crypto.rs:28-31 | The first sixteen words of the schedule are the block's |
| `Sha2.ExtendSchedule` | service/src/crypto.rs:32-39 | The loop fills the schedule as section 6.2.2 of FIPS 180-4 defines it |
| `Sha2.RunSteps` | service/src/crypto.rs:40-60 | Sixty-four steps on shifting variables compute the standard's working variables |
| `Sha2.CompressBlock` | service/src/crypto.rs:27-69 | One block updates the eight words in place as the standard says |
| `Sha2.HashBlocks` | service/src/crypto.rs:27-69 | The loop over blocks computes the recursive hash value |
| `Sha2.HashContinues` | service/src/crypto.rs:27-69 | Blocks are taken in order: hashing some and then more goes on from the value the first ones left |
| `Sha256.WordsReorder` | service/src/crypto.rs:35-38 | Adding the schedule's four terms in the program's order or the standard's gives the same word |
| `Sha256.Compute` | service/src/crypto.rs:22-75 | The digest is the recursive definition on the padded message, whose constants, functions and published example are proved in the rows below |
| `Sha256Constants.ConstantIsCubeRoot` | service/src/crypto.rs:11-20 | Constant t is the first thirty-two bits of the fraction of the cube root of the prime with t primes below it (FIPS 180-4, section 4.2.2) |
| `Sha256Constants.InitialIsSquareRoot` | service/src/crypto.rs:23-26 | Word t of the initial hash value is those of that prime's square root (section 5.3.3) |
| `Sha256Constants.ChBit` | service/src/crypto.rs:43 | Each bit of `Ch` is chosen by the first word from the other two |
| `Sha256Constants.MajBit` | service/src/crypto.rs:50 | Each bit of `Maj` is that of the majority |
| `Sha256Constants.BigSigma0Bit` | service/src/crypto.rs:49 | Each bit is the sum of the three at distances 2, 13 and 22 |
| `Sha256Constants.BigSigma1Bit` | service/src/crypto.rs:42 | Of the three at distances 6, 11 and 25 |
| `Sha256Constants.SmallSigma0Bit` | service/src/crypto.rs:33 | Of those at distances 7 and 18, counted around, and 3, not around |
| `Sha256Constants.SmallSigma1Bit` | service/src/crypto.rs:34 | Of those at distances 17 and 19, counted around, and 10, not around |
| `Sha256Example.DigestExample` | service/src/crypto.rs:433-437 | The digest of "abc" is the published one |
| `Sha1.LogicSame` | service/src/crypto.rs:94-99 | The logical functions as written, with "or", equal the standard's, with "exclusive or", in all eighty steps |
| `Sha1.ExtendSchedule` | service/src/crypto.rs:86-91 | The loop fills the schedule as section 6.1.2 of FIPS 180-4 defines it |
| `Sha1.RunSteps` | service/src/crypto.rs:92-110 | Eighty steps on shifting variables compute the standard's working variables |
| `Sha1.HashContinues` | service/src/crypto.rs:82-123 | Blocks are taken in order |
| `Sha1.Compute` | service/src/crypto.rs:82-123 | The digest is the recursive definition on the padded message |
| `Sha1Example.DigestExample` | service/src/crypto.rs:451-455 | The digest of "abc" is the published one |
| `Base64.EncodeText` | service/src/crypto.rs:348-371 | The loop over groups of three produces the encoding |
| `Base64.DecodeQuartet` | service/src/crypto.rs:383-400 | The loop over a group's four characters reads their values and counts the padding, or refuses the group |
| `Base64.DecodeText` | service/src/crypto.rs:373-409 | White space is skipped, lengths and characters checked, and every group decoded in order |
| `Base64.AlphabetIs` | service/src/crypto.rs:346 | The alphabet is that of RFC 4648, table 1 |
| `Base64.GroupExactly` | service/src/crypto.rs:383-406 | Four characters decode to their twenty-four bits in three bytes, less one byte for each padding character |
| `Base64.GroupRefused` | service/src/crypto.rs:383-400 | A group is refused exactly when some character of it stands for nothing in its place |
| `Base64.DecodeConcat` | service/src/crypto.rs:383-406 | Groups are decoded in order, and one bad group refuses the text |
| `Base64.CleanExactly` | service/src/crypto.rs:374-377 | Exactly space, tab, newline, form feed and carriage return are skipped, wherever they are |
| `Base64.GroupRoundTrip` | service/src/crypto.rs:348-409 | One to three bytes survive their four characters, padding included |
| `Base64.EncodedLength` | service/src/crypto.rs:349 | Four characters for every three bytes begun |
| `Base64.RoundTrip` | service/src/crypto.rs:348-409 | Decoding an encoded text gives the data back, for every byte string |
| `Base64.Rfc4648Examples` | service/src/crypto.rs:531-543 | The longer examples of RFC 4648, section 10, encode as given |
| `BasicAuth.EqConstantTime` | service/src/crypto.rs:417-426 | The accumulated difference is zero exactly when the two byte strings are equal |
| `BasicAuth.AuthorizedBasic` | service/src/api.rs:68-83 | Access is granted exactly when the header presents the bytes of the configured pair |
| `BasicAuth.PresentedExactly` | service/src/api.rs:72-80 | A header presents some bytes if and only if it is "Basic " and a text that decodes to them, white space around it aside |
| `BasicAuth.HeaderPresents` | service/src/http.rs:275-283 | The header built for a pair presents the bytes of that pair |
| `BasicAuth.HeaderExample` | service/src/api.rs:646 | The header for "admin" and "pw" is the one the program's tests send |
| `BasicAuth.AcceptsExactly` | service/src/api.rs:68-83 | The header built for a pair is accepted if and only if the pair joins to the configured text |
| `BasicAuth.AcceptsOnlyConfigured` | service/src/api.rs:68-83 | No header built for another pair is accepted if and only if the configured pair has no colon, in either half |
| `BasicAuth.AcceptsStandardPair` | service/src/http.rs:275-283 | Among user names without a colon, as the standard has them, a pair is accepted if and only if it is the configured one, whatever its password |
| `BasicAuth.ColonIsAmbiguous` | service/src/api.rs:81-82 | Two pairs, one with a colon in the password and one with it in the user name, each accepted for the other |
| `Klap.DeriveKeys` | service/src/kasa.rs:90-108 | Key, vector, signing key and first number are the labelled digests' parts |
| `Klap.DerivedParts` | service/src/kasa.rs:90-108 | Those are the first sixteen, twelve and twenty-eight bytes of the digests under "lsk", "iv" and "ldk", and the last four of the second |
| `Klap.AuthHash` | service/src/kasa.rs:75-80 | The authentication hash is the digest of the two digests |
| `Klap.EncryptPayload` | service/src/kasa.rs:110-124 | The bytes a receiver takes for this text under this number are the ones returned, and no others |
| `Klap.ReceivedExactly` | service/src/kasa.rs:110-124 | Bytes whose first thirty-two are the digest of signing key, number and all that follows, and of which that decrypts to a text under the number's vector, are the payload for that text and number |
| `Klap.DecryptPayload` | service/src/kasa.rs:126-134 | Payloads shorter than a signature are refused, the rest decrypted under the number's vector |
| `Klap.OpensExactly` | service/src/kasa.rs:126-134 | A payload opens to a text if and only if everything after its first thirty-two bytes is the encryption of that text; the signature is not looked at |
| `Klap.PayloadOpens` | service/src/kasa.rs:110-134 | What was encrypted under a number opens under that number |
| `Klap.NumberOfBytes` | service/src/kasa.rs:106-113 | A signed 32-bit number is recovered from its big-endian bytes |
| `Klap.TwosComplement` | service/src/kasa.rs:106-113 | The bytes of a negative number are those of 2^32 more |
| `Klap.SucceedsExactly` | service/src/kasa.rs:221-244 | A call succeeds with a document if and only if the reply has status 200, all after its first thirty-two bytes encrypts, under the call's number, bytes that decode to a text parsing to the document, and the error code is missing, no integer, or zero |
| `Klap.FailsWithCode` | service/src/kasa.rs:237-243 | A reply that carries a document with another error code fails the call with that code |
| `Klap.AnswerUnderstood` | service/src/kasa.rs:110-134 | A printed document encrypted under the call's number is carried by the reply, as it comes back from its text |
| `Klap.KlapSession.constructor` | service/src/kasa.rs:214-218 | A session starts with the derived keys and number and no call made |
| `Klap.KlapSession.Execute` | service/src/kasa.rs:221-244 | Every call, failed ones included, advances the wrapped number by one, encrypts under that number's vector, and sends exactly the bytes a receiver takes for the request under that number |
| `Klap.VectorsRepeatExactly` | service/src/kasa.rs:221-224 | Two calls of a session, however long, use the same initialisation vector if and only if they are a multiple of 2^32 calls apart |
| `Inventory.FieldAt` | service/src/wiim.rs:65-104 | With distinct keys, inserting fields in turn lets each be looked up as given |
| `Inventory.WrittenMembers` | service/src/wiim.rs:65-104 | The key under which each part of a device is written, those not known being left out |
| `Inventory.FromJsonExactly` | service/src/wiim.rs:107-128 | A document is read as a device if and only if its members are that device's parts, optional texts missing or of another type where there are none |
| `Inventory.FromToJson` | service/src/wiim.rs:65-128 | Reading a written device gives it back, unreachable and with its time clamped to 64 signed bits |
| `Inventory.LoadInventory` | service/src/wiim.rs:606-622 | Malformed documents, documents that are no array, and any invalid device are refused; otherwise all devices are returned in order |
| `Inventory.LoadOfSaved` | service/src/wiim.rs:606-633 | Loading what was saved gives every device back in order, so restored |
| `Inventory.LoadsBackExactlyWhen` | service/src/wiim.rs:606-633 | Nothing but reachability is lost if and only if every time fits 64 signed bits |
| `Inventory.LoadedIsStable` | service/src/wiim.rs:606-633 | Whatever text a list was loaded from, saving and loading it gives the same list |
| `Inventory.MergeInventory` | service/src/wiim.rs:589-604 | The two loops over a map compute the merge |
| `Inventory.MergedIsUnion` | service/src/wiim.rs:589-604 | Ids come out once each and in order; the newest entry of each id of either list is there, absent ones unreachable, and nothing else |
| `Inventory.MergedExactly` | service/src/wiim.rs:589-604 | A device is in the merged list if and only if it is the last one found under its id, or the last one known, made unreachable, of an id that was not found |
| `Inventory.MergeIdempotent` | service/src/wiim.rs:589-604 | Merging the same scan again changes nothing |
| `Inventory.RestartKeepsMerge` | service/src/wiim.rs:154-186 | After saving, loading and merging the same scan, as a restart does, the list is the same if and only if every device the scan did not find was last seen at a time within 64 signed bits |
| `Ipv4.ParsesExactly` | service/src/wiim.rs:72 | Only the printed form of an address parses, to that address |
| `Ipv4.PrintIs` | service/src/wiim.rs:72 | The printed form is the four octets in decimal with dots between |
| `Ipv4.NumberOf` | lib/site-assertions.nix:36-56 | The number of the address made from a number is that number |
| `Cidr.MaskValue` | service/src/config.rs:26 | The shifted mask is all but the last block-size numbers, for every prefix |
| `Cidr.AndHigh` | service/src/config.rs:27-35 | Masking off low bits rounds down to a multiple of the block size |
| `Cidr.MaskIsInterval` | service/src/config.rs:16-35 | The mask test agrees with the division-and-interval test for every base, prefix and address |
| `Cidr.PrefixOctets` | service/src/config.rs:26-35 | A prefix of eight, sixteen, twenty-four or thirty-two bits fixes exactly the first one, two, three or four octets |
| `Cidr.BroadcastIsLast` | lib/site-assertions.nix:60-88 | The broadcast address is in the mask's block and is its greatest |
| `Cidr.ZeroPrefixContainsAll` | service/src/config.rs:26 | A prefix of zero contains every address |
| `Cidr.ParseWritten` | service/src/config.rs:17-31 | The written form of an address and prefix parses to their block |
| `Cidr.ParsesBlockExactly` | service/src/config.rs:17-31 | A text parses to a block if and only if it is an address, a slash and digits, after a plus sign or not, of a prefix of at most thirty-two, and the block is theirs |

## Left out

- Json.ParseNumber: turning text into a floating-point number is a parameter and a float is the text displayed for it, because rounding is a matter of the standard library.
- Base64.DecodeText: does not tell its two refusals apart, a wrong length and a wrong character.
- JsonCursor.ReadDocument: does not give the positions in error messages, and does not tell a truncated escape from a malformed one.
- Json.ParseValue: does not bound the nesting depth, where the program's recursion would exhaust its stack.
- SpoolDirectory.Spool.NextBatch: gives the served text as bytes; replacing invalid UTF-8 that a torn write can leave is not modelled.
- SpoolDirectory.Spool.SmallestFirst: takes the least segment, the only one the caller uses, and does not model the sort that puts it first.
- SpoolDirectory.Spool.Append: does not model the 64-bit wrap-around of the sequence number, the length and the drop counter.
- SpoolHistory.Conservation: crashes happen inside an append; the single rename or unlink of the other operations is atomic, so a crash there is a reopen before or after it.
- MessagePadding.PaddedBlocks: the bit length wraps around from 2^61 bytes on; a build with overflow checks would stop there instead.
- Klap.KlapSession.Execute: the reply, and whether its bytes are UTF-8, are parameters; the cookie and the request's address are not modelled.
- Klap.KlapSession.constructor: starts from the seeds and the authentication hash; the two handshake requests and their checks are not modelled.
- Inventory.LoadInventory: the file's existence, reading, writing and renaming are not modelled, only its text.
- Input and output errors other than a crash: writes, renames and unlinks succeed.
- Threads: each method that holds a lock is one atomic step.
- HTTP parsing and writing, sockets, timeouts, discovery broadcasts, the media proxy and XML.
- Bearer tokens, route dispatch, health, metrics, media-server registration and configuration loading: single-branch facts.
- Aggregate statistics over all modules: a sum of the per-spool statistics.
- Secrecy, collision resistance and timing of the cryptography.
- The random seed, the environment-sensor poller and its timestamp correction.
- Host configuration, enrolment and update scripts and their tests.
