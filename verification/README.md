# GSM2MQTT, modelled and proved in Dafny

GSM2MQTT is a gateway between GSM modems and MQTT. This project models its cores and proves what they are for:

- **SMS codec** (`Octets`, `Text`, `Septets`, `Gsm7`, `Ucs2`, `Address`, `Timestamp`, `Splitting`, `Encoder`, `Submit`,
  `Decoder`, `Relay`): septet packing, the GSM 7-bit alphabet, UCS-2, semi-octet addresses, time stamps, the cutting of
  long texts, SMS-SUBMIT PDUs with the concatenation header, and the reading of SMS-DELIVER PDUs.
- **Reassembly** (`Assembler`, `Reassembly`, `EndToEnd`, `DeliveryLimits`, `ForeignSenders`): multipart messages under timers, late parts,
  expiry and Close, and the whole way of a text from one gateway's encoder to another gateway's assembler. The service
  centre between them reads the user data that TP-UDL announces and forwards it under the same length.
- **Rate limiter** (`RateLimit`): sliding windows with pruned histories against a scan of the full log.
- **AT engine** (`AtLines`, `AtEngine`): the framing of the byte stream, which line belongs to which command, and all
  interleavings of callers, reader, time-outs and cancellations.
- **Delivery tracker** (`Phone`, `StatusReport`, `Tracker`), **modem pool** (`Pool`) and **MQTT client** (`MqttClient`).
- **Worked examples** (`KnownAnswers`): literal octets and texts from the repository's tests and the standards.

Code that changes fields or loops is a class or a method, proved against a specification function; the properties are
lemmas about those functions and about whole runs of them. Concurrent parts are state machines whose steps are the
lock-protected sections; a timer is an event that may fire at any time, stale or not.

Conventions: an octet is an integer below 256, shifts and OR are defined on its bits; text is a sequence of Unicode scalar
values (Dafny `char`); instants are integer nanoseconds that are handed in; a time stamp is the wall clock reading and
zone it spells.
`dafny verify dfyconfig.toml` checks everything.

Where code and documentation disagree the code is followed: any delivery report, a temporary failure included, ends the
tracking of a message (`internal/sms/tracker.go:139`, unlike the sketch at `docs/delivery-reports.md:338-341`). Some
promises do not hold for every input; the exact conditions are proved:

- User data fits 140 octets exactly when the real septets or UTF-16 units of the piece are within the limit
  (`Submit.SingleFits`, `Submit.PartFits`). Characters are counted instead of septets, so 160 carets make one message of
  280 octets (`Submit.ExtensionOverflow`). UCS-2, and GSM-7 without extension characters, always fit (`Submit.AllFit`).
- What a service centre reads from a PDU is what was meant if and only if the recipient has at most 255 digits and TP-UDL
  did not wrap, that is at most 255 septets, or octets for the other encodings, header included (`Submit.EncodedLayout`).
- A text of one PDU is handed on at once, and is the text if and only if TP-UDL did not wrap and the encoding covers it
  (`EndToEnd.SingleIsReceived`); of 128 carets nothing arrives (`DeliveryLimits.CaretsVanish`).
- A text of 2 to 20 parts is completed once all its parts have arrived within its lifetime, and what is completed is the
  text if and only if TP-UDL of no part wrapped and the encoding covers the text (`EndToEnd.SentIsReceived`,
  `EndToEnd.SentIsReceivedLate`, `EndToEnd.WholeText`). Otherwise it is shorter or altered: of 161 carets 33 arrive
  (`DeliveryLimits.CaretsArrived`), of 71 supplementary characters sent as binary 7 (`DeliveryLimits.BinaryIsCut`), and
  161 Cyrillic letters under an explicit GSM-7 become question marks (`DeliveryLimits.CyrillicIsLost`).
- If TP-UDL of a part wrapped to less than its header the message is never completed (`EndToEnd.LostHeader`), as with 96
  carets and 65 letters (`DeliveryLimits.HeaderCutOff`). Nor is anything as long as a text of more than 20 parts
  (`DeliveryLimits.TooManyParts`); 3061 letters are such a text (`DeliveryLimits.TooLongTextsExist`).
- A recipient survives the address field if and only if it has at most 255 digits (`Address.RoundTrip`,
  `Address.TooManyDigits`), and a normalized number finds its tracking entry again under the same condition
  (`Phone.WireKey`, `Phone.EndlessPrefix`).
- Long messages of senders with 16-bit references are reassembled (`ForeignSenders.WideReassembled`), but two of one sender
  share a key if and only if the low octets of their references agree (`ForeignSenders.WideReferencesCollide`).
- The rate limits hold in every run of an enabled limiter (`RateLimit.RunWindows`); a disabled one accepts any number of
  requests at one instant (`RateLimit.DisabledIsUnbounded`).
- An answered command gets exactly its own reply when the lines of commands that were given up come before the next one
  begins (`AtLines.SessionAttribution`); when they come later the next command gets that reply
  (`AtLines.LateReplyGoesToNextCommand`, `AtLines.LateOk`).
- A registered MQTT call keeps its entry in the table if and only if no other call of its kind with the same identifier
  registers or leaves meanwhile (`MqttClient.EntryKept`), which takes 65535 further identifiers
  (`MqttClient.LiveWaitersKeepTheirEntries`, `MqttClient.OldWaiterLosesItsEntry`).
- Round-robin selection is fair before the 64-bit counter wraps, and across the wrap exactly when the number of ready
  modems divides the counter's range (`Pool.RoundRobinIsFair`, `Pool.FairAcrossWrap`); three modems at counter value
  2^64 - 1 are an unfair case (`Pool.UnfairWrap`).

## Model

| member | source | states |
|---|---|---|
| Septets.PackSeptets | internal/sms/pdu/gsm7.go:78-101 | the loop of ORs produces the stream in which bit `startBit + 7i + j` is bit `j` of septet `i` and every other bit is zero |
| Septets.UnpackSeptets | internal/sms/pdu/gsm7.go:104-124 | reads septet `i` from those bits, bits past the end being zero, though the second octet is read only sometimes |
| Septets.PackedStream | internal/sms/pdu/gsm7.go:83-98 | every bit of the packed octets: nothing overlaps, nothing before the start bit or after the end, no final spill lost |
| Septets.PackUnpackPrefix | internal/sms/pdu/gsm7.go:78-124 | reading fewer septets than were packed gives the first ones |
| Septets.UnpackCut | internal/sms/pdu/gsm7.go:104-124 | octets behind the last septet that is read do not matter |
| Septets.PackUnpack | internal/sms/pdu/gsm7.go:78-124 | unpacking undoes packing for every sequence of septets and every start bit |
| Gsm7.BasicInverse | internal/sms/pdu/gsm7.go:31-39 | the rune map is exactly the inverse of the basic table, ESC left out |
| Gsm7.ExtensionInverse | internal/sms/pdu/gsm7.go:41-47 | the extension rune map is the inverse of the extension table |
| Gsm7.StandardAlphabet | internal/sms/pdu/gsm7.go:3-29 | both tables are the default alphabet of 3GPP TS 23.038, printed row by row, and its extension |
| Gsm7.IsGSM7 | internal/sms/pdu/gsm7.go:50-59 | true exactly when every character is in one of the two alphabets |
| Gsm7.EncodeGSM7 | internal/sms/pdu/gsm7.go:62-74 | the loop computes the septets of the text, '?' for foreign characters |
| Gsm7.DecodeGSM7 | internal/sms/pdu/gsm7.go:127-143 | the loop with its skipping index computes the decoding, dangling and unknown escapes included |
| Gsm7.RoundTripSubstituted | internal/sms/pdu/gsm7.go:62-143 | encoding and decoding any text gives it back with foreign characters replaced by '?' |
| Gsm7.RoundTrip | internal/sms/pdu/gsm7.go:50-143 | the text comes back unchanged if and only if the alphabet covers it |
| Gsm7.StrayEscape | internal/sms/pdu/gsm7.go:127-143 | an escape before a code without extension character, or at the end, gives NUL |
| Gsm7.EncodedConcat | internal/sms/pdu/gsm7.go:62-74 | texts may be cut between characters: the septets of the pieces are those of the whole |
| Gsm7.EncodedLength | internal/sms/pdu/gsm7.go:65-69 | one septet a character exactly when there is no extension character |
| Ucs2.EncodeUCS2 | internal/sms/pdu/ucs2.go:8-16 | the loop writes the UTF-16 units big-endian |
| Ucs2.DecodeUCS2 | internal/sms/pdu/ucs2.go:19-28 | the loop reads units back, an odd last octet dropped and unpaired surrogates replaced |
| Ucs2.RoundTrip | internal/sms/pdu/ucs2.go:8-28 | every text of scalar values survives, and takes twice the units that the splitter counts |
| Ucs2.StrayOctets | internal/sms/pdu/ucs2.go:19-28 | an odd octet at the end is dropped |
| Ucs2.StraySurrogate | internal/sms/pdu/ucs2.go:19-28 | an unpaired surrogate becomes U+FFFD |
| Address.EncodeAddress | internal/sms/pdu/address.go:10-37 | digit count in one octet, type of address, swapped semi-octets with 0xF padding |
| Address.DecodeAddress | internal/sms/pdu/address.go:41-63 | reads at most the counted digits, skipping halves that hold none |
| Address.BcdRoundTrip | internal/sms/pdu/address.go:31-60 | reading `max` digits of a written number gives its first `max` digits |
| Address.RoundTrip | internal/sms/pdu/address.go:10-63 | an address reads back as the number without formatting if and only if it has at most 255 digits |
| Address.TooManyDigits | internal/sms/pdu/address.go:10-63 | the failing case: the count of 256 digits wraps to zero and none is read back |
| Address.NoDigit | internal/sms/pdu/address.go:41-63 | halves that hold no digit are skipped |
| Timestamp.RoundTrip | internal/sms/pdu/timestamp.go:9-35 | every time stamp that seven octets can spell, zones east and west of Greenwich included, is read back |
| Splitting.SplitChunks | internal/sms/pdu/encoder.go:174-209 | both branches cut greedily: every piece takes as much as fits |
| Splitting.SplitByCount | internal/sms/pdu/encoder.go:175-186 | the branch by characters computes the greedy cut |
| Splitting.SplitByUnits | internal/sms/pdu/encoder.go:188-208 | the branch by UTF-16 units computes the greedy cut |
| Splitting.GreedyIsPartition | internal/sms/pdu/encoder.go:174-209 | the pieces are not empty, within the limit, and concatenate to the text |
| Splitting.GreedyIsOptimal | internal/sms/pdu/encoder.go:174-209 | no contiguous partition within the limit has fewer pieces |
| Splitting.AtLeastTwo | internal/sms/pdu/encoder.go:66-76 | a text over the limit gives at least two pieces |
| Encoder.CountUnits | internal/sms/pdu/encoder.go:52-63 | the counting loop gives the weight that the splitter uses |
| Encoder.SmsEncoder.NextRefNumber | internal/sms/pdu/encoder.go:12-18 | the reference after the last one, 255 followed by 1 |
| Encoder.RefsDistinct | internal/sms/pdu/encoder.go:12-18 | any 255 consecutive references are different and none is zero |
| Encoder.SmsEncoder.EncodeSMS | internal/sms/pdu/encoder.go:21-88 | errors, choice of encoding, single PDU or numbered parts; the counter moves only for a multipart text |
| Submit.PduOctets | internal/sms/pdu/encoder.go:146-168 | the hexadecimal text is one SMSC octet and the TPDU, and the command length counts the TPDU only |
| Submit.EncodeErrors | internal/sms/pdu/encoder.go:21-27 | nothing is sent exactly for a recipient of white space or an empty text, each with its error |
| Submit.EncodedLayout | internal/sms/pdu/encoder.go:74-168 | an independent SMS-SUBMIT reader, which takes the user data that TP-UDL announces, finds recipient, coding scheme and length of every PDU if and only if the recipient has at most 255 digits, and all of its user data if and only if moreover the length did not wrap; in any case parts are numbered, agree on the total, are at least two, and the command length is true |
| Submit.SingleAnnounced | internal/sms/pdu/encoder.go:90-114 | TP-UDL of a single PDU announces no more octets than there are, and all of them exactly when it did not wrap |
| Submit.PartAnnounced | internal/sms/pdu/encoder.go:116-144 | the same for a part with its header |
| Submit.FirstOctetFields | internal/sms/pdu/encoder.go:91-120 | message type SMS-SUBMIT, relative validity, and exactly the header and report flags |
| Submit.NoPairIsSplit | internal/sms/pdu/encoder.go:174-209 | pieces encoded one by one are the text encoded at once: no surrogate pair or escape pair is cut |
| Submit.SingleFits | internal/sms/pdu/encoder.go:90-114 | at most 140 octets, and a true length octet, exactly when the real cost is within the limit |
| Submit.PartFits | internal/sms/pdu/encoder.go:116-144 | the same for a part with its header |
| Submit.AllFit | internal/sms/pdu/encoder.go:41-144 | every PDU of a UCS-2 text, or of a GSM-7 text without extension characters, has at most 140 octets and the true count in TP-UDL |
| Submit.OnePduWhenItFits | internal/sms/pdu/encoder.go:41-87 | a text that is counted exactly is one PDU if and only if it fits 140 octets without a header |
| Submit.ExtensionOverflow | internal/sms/pdu/encoder.go:61-66 | the concrete text that breaks the limit: 160 carets make 280 octets, of which TP-UDL announces 56 |
| Decoder.ParseUDH | internal/sms/pdu/decoder.go:99-136 | header fields, fill bits and the text behind the header, header overruns included |
| Decoder.ParsePlainUD | internal/sms/pdu/decoder.go:138-148 | the text of a message without a header, for both encodings and the empty case |
| Decoder.DecodeSMS | internal/sms/pdu/decoder.go:9-97 | total on every input: never reads past the end, and returns the fields, decoded time stamp included, or the error of the layout |
| Relay.DecodeDeliver | internal/sms/pdu/decoder.go:9-97 | any SMS-DELIVER, with a header or without, that carries given user data decodes to that data, sender and time stamp |
| Relay.AcceptsExactlyDeliver | internal/sms/pdu/decoder.go:9-97 | exactly the octets with the layout of SMS-DELIVER are accepted, and each error has its cause |
| Relay.SingleSurvives | internal/sms/pdu/decoder.go:138-148 | the user data of a single PDU gives back its text, as far as TP-UDL announces it |
| Relay.PlainOfSingle | internal/sms/pdu/decoder.go:138-148 | given all the octets instead, the decoder heeds the length of GSM-7 text only: the text comes back if and only if its septets, if it has any, are at most 255 |
| Relay.PartSurvives | internal/sms/pdu/decoder.go:99-136 | an encoded part gives back reference, total, number and of its text what TP-UDL announces, or nothing at all when TP-UDL wrapped to less than the header |
| Relay.GotLength | internal/sms/pdu/encoder.go:90-144 | what arrives of a PDU is never longer than its text, and equally long, and the expected text, if and only if the length octet fits, in every encoding |
| Relay.ReceivedUnchanged | internal/sms/pdu/gsm7.go:62-74 | the expected text is the text itself if and only if GSM-7, where it is used, covers it |
| ForeignSenders.AnyHeader | internal/sms/pdu/decoder.go:99-136 | behind any header the text comes back from behind the right fill bits |
| ForeignSenders.WideDecodes | internal/sms/pdu/decoder.go:116-119 | a header with a 16-bit reference, whatever elements follow, gives its low octet, total, part and text, in any envelope |
| ForeignSenders.NarrowDecodes | internal/sms/pdu/decoder.go:112-115 | the same for an 8-bit reference |
| ForeignSenders.OtherElementDecodes | internal/sms/pdu/decoder.go:99-136 | a header that starts with another element gives no part numbers, and its text all the same |
| ForeignSenders.OwnHeader | internal/sms/pdu/encoder.go:116-144 | the header that the encoder writes is the one with an 8-bit reference |
| Text.KeyInjective | internal/sms/assembler.go:131-131 | two pairs of sender and reference never share a key, whatever characters the sender holds |
| Assembler.JoinParts | internal/sms/assembler.go:187-190 | the texts of parts 1 to n in part order |
| Assembler.IsContiguous | internal/sms/assembler.go:278-285 | true exactly when the numbers follow each other |
| Assembler.FormatPartsSummary | internal/sms/assembler.go:255-276 | the loop and the three ways of writing the numbers that have arrived give the summary text |
| Assembler.SummaryReadable | internal/sms/assembler.go:255-276 | from the summary a reader recovers exactly which parts have arrived, and out of how many |
| Assembler.BuildAvailableText | internal/sms/assembler.go:287-314 | the received texts with a mark for every missing part that lies between received ones |
| Assembler.NoGapNoMark | internal/sms/assembler.go:287-314 | without such a gap the text is what was received, in part order |
| Assembler.MessageAssembler.CleanupExpired | internal/sms/assembler.go:316-338 | removes exactly the expired entries of both maps |
| Assembler.MessageAssembler.AddPart | internal/sms/assembler.go:109-215 | the new maps and the result for single, malformed, late, first, further and completing parts |
| Assembler.MessageAssembler.FlushPending | internal/sms/assembler.go:217-253 | a pending message becomes a flushed one and is reported with the parts that the shared map holds after the unlock; a stale timer does nothing |
| Assembler.MessageAssembler.Close | internal/sms/assembler.go:92-103 | both maps are empty |
| Assembler.AddPreservesInv | internal/sms/assembler.go:109-215 | AddPart keeps the invariant of the maps |
| Assembler.FirePreservesInv | internal/sms/assembler.go:217-253 | a timer keeps it, stale or not |
| Reassembly.ReachableStates | internal/sms/assembler.go:92-253 | in every interleaving no key is pending and flushed at once, and every entry has at least one and fewer than all of its 2 to 20 parts, under its own sender and reference |
| Reassembly.Projection | internal/sms/assembler.go:109-253 | the assembler is one independent machine per key: other keys, expiry of others and foreign timers never interfere |
| Reassembly.SingleHandedOn | internal/sms/assembler.go:110-119 | messages without parts are handed on as they are |
| Reassembly.MalformedDropped | internal/sms/assembler.go:121-124 | parts numbered below 1 or above their total, or of more than 20, are dropped without a trace |
| Reassembly.PartJoins | internal/sms/assembler.go:126-215 | a part starts a new message where there is none or an outlived one, and otherwise joins it, its age, sender, stamp and total unchanged; lifetimes in nanoseconds |
| Reassembly.OthersOutlive | internal/sms/assembler.go:316-338 | other keys only lose what has outlived its lifetime |
| Reassembly.TextTells | internal/sms/assembler.go:154-155 | the text about an incomplete message names exactly the parts that have arrived and the total, and shows them in order with a mark for every one missing in between |
| Reassembly.Reassembles | internal/sms/assembler.go:109-215 | parts in any order, repeated, among any traffic, stale timers included: nothing until the last missing part, then the whole text, stamped like the first part, and the key is free |
| Reassembly.LatePartsComplete | internal/sms/assembler.go:133-253 | the same cut at any point by a timer: a notice and an update per late part, each with number, list and text of the parts so far, nothing for stale timers, one complete update, and the key is free |
| ForeignSenders.WideReassembled | internal/sms/assembler.go:109-215 | long texts of senders with 16-bit references are reassembled from parts in any order |
| ForeignSenders.WideReferencesCollide | internal/sms/pdu/decoder.go:116-119 | two such texts of one sender share a key if and only if the low octets of their references agree |
| EndToEnd.ForwardedPart | internal/services/sms_urc.go:102-129 | encoder, service centre, SMS-DELIVER and decoder together give back number, total, reference and time stamp of every part, and its text if and only if the length octet fits; without its announced header a part becomes an empty message |
| EndToEnd.SentIsReceived | internal/sms/assembler.go:109-215 | every text cut into 2 to 20 parts is completed, in any arrival order, as the text that its parts carry; that is the text sent if and only if no length octet wrapped and the encoding covers it |
| EndToEnd.SentIsReceivedLate | internal/sms/assembler.go:133-253 | the same when the assembly timer cuts the arrival, with the notice and all updates before |
| EndToEnd.DeliveredInOrder | internal/services/sms_urc.go:102-129 | in particular, parts delivered in order to a new assembler complete the message if all headers are announced, and otherwise nothing does |
| EndToEnd.LostHeader | internal/sms/pdu/decoder.go:99-110 | when the length octet of one part wrapped to less than its header, no run completes the message |
| EndToEnd.SingleIsReceived | internal/sms/assembler.go:110-119 | a text of one PDU is handed on at once in every state, as the text sent if and only if its length octet did not wrap and the encoding covers it |
| EndToEnd.InterleavedTexts | internal/sms/pdu/encoder.go:12-18 | up to 255 consecutive long texts of one encoder, their parts interleaved in any way at one receiver, are each completed |
| DeliveryLimits.LongTextsExist | internal/sms/pdu/encoder.go:66-87 | texts of every length that takes 2 to 20 parts that arrive unharmed |
| DeliveryLimits.CaretsAreLost | internal/sms/pdu/encoder.go:116-144 | and texts of every such length that do not: the first piece of carets wraps its length octet |
| DeliveryLimits.CaretsArrived | internal/sms/pdu/encoder.go:116-144 | the smallest of them: of 161 carets the receiver is handed 33 |
| DeliveryLimits.CaretsVanish | internal/sms/pdu/encoder.go:90-114 | of 128 carets, whose 256 septets wrap to none, nothing arrives |
| DeliveryLimits.HeaderCutOff | internal/sms/pdu/encoder.go:116-144 | 96 carets and 65 letters: the length of the first part wraps to zero, and the message is lost |
| DeliveryLimits.CyrillicIsLost | internal/sms/pdu/encoder.go:29-39 | 161 Cyrillic letters under an explicit GSM-7 arrive as 161 question marks |
| DeliveryLimits.BinaryIsCut | internal/sms/pdu/encoder.go:41-63 | of 71 supplementary characters sent as binary, which counts characters but writes UTF-16 units, 7 arrive |
| EndToEnd.WholeText | internal/sms/pdu/encoder.go:29-39 | what arrives is never longer than the text, is the expected text if and only if no length octet wrapped, and the very text if and only if moreover the encoding covers it, as the automatic choice always does |
| EndToEnd.CountedLengthsFit | internal/sms/pdu/encoder.go:116-144 | no length octet wraps for UCS-2 texts and GSM-7 texts without extension characters |
| DeliveryLimits.TooManyParts | internal/sms/assembler.go:122-124 | with more than 20 parts nothing as long as the text is ever completed: up to 255 the parts are dropped, beyond that the wrapped count can only complete less |
| DeliveryLimits.TooLongTextsExist | internal/sms/pdu/encoder.go:66-87 | there are such texts of every length above 3060 |
| RateLimit.PruneOlderThan | internal/security/ratelimit.go:138-147 | drops exactly the leading instants before the cutoff |
| RateLimit.PruneCounts | internal/security/ratelimit.go:100-127 | what is left of a pruned history is as long as a scan of all instants counts |
| RateLimit.RateLimiter.PruneNumber | internal/security/ratelimit.go:116-121 | the same for one number, whose empty history is forgotten |
| RateLimit.RateLimiter.CheckLimits | internal/security/ratelimit.go:100-127 | the answer of the full scan, although early returns leave later windows unpruned |
| RateLimit.RateLimiter.RecordSend | internal/security/ratelimit.go:130-135 | all four histories follow the log |
| RateLimit.RateLimiter.Check | internal/security/ratelimit.go:54-85 | the same answer, log and cooldown as the naive limiter with the full log |
| RateLimit.RateLimiter.Reset | internal/security/ratelimit.go:88-97 | everything starts anew |
| RateLimit.EveryWindow | internal/security/ratelimit.go:100-127 | if each send was admitted by the window it ends, every closed interval of that length anywhere is within the maximum |
| RateLimit.LogIsAccepted | internal/security/ratelimit.go:54-85 | the log of an enabled limiter is the requests it accepted, in every interval, for all and per number |
| RateLimit.RunWindows | internal/security/ratelimit.go:54-135 | in every run of an enabled limiter every closed minute, hour and day, and every hour per number, holds at most the configured number of accepted requests |
| RateLimit.EveryAnswer | internal/security/ratelimit.go:54-127 | every answer of an enabled limiter from those before: a cooldown while one runs and no longer, otherwise the first window of minute, hour, day and number that has reached its maximum, otherwise accepted |
| RateLimit.DisabledAcceptsAll | internal/security/ratelimit.go:63-65 | a disabled limiter records nothing and accepts every request that names a number |
| RateLimit.DisabledIsUnbounded | internal/security/ratelimit.go:63-65 | so no bound holds then: any number of requests is accepted at one instant |
| RateLimit.NothingDuringCooldown | internal/security/ratelimit.go:67-80 | after a limit was hit nothing is accepted before the cooldown ends |
| AtLines.ReadLoop | internal/modem/at/engine.go:189-238 | lines and prompts depend on the bytes only, not on how the reads cut them, and the buffer stays within 4096 bytes |
| AtLines.FramingRoundTrip | internal/modem/at/engine.go:208-236 | lines and prompts that a modem writes in the usual format are read back, all of them and in order |
| AtLines.LongestLine | internal/modem/at/engine.go:229-235 | 4096 bytes without a line break are kept, one more and all are dropped |
| AtLines.PromptAnywhere | internal/modem/at/engine.go:210-222 | a '>' anywhere is a prompt and drops what was read of its line |
| AtLines.CommandNameFacts | internal/modem/at/urc.go:34-40 | a command's name is what stands between "AT" and the first stop character |
| AtLines.NameOfQuery | internal/modem/at/urc.go:30-40 | a worked example of a command's name |
| AtLines.IsURC | internal/modem/at/urc.go:49-69 | true exactly for the listed prefixes |
| AtLines.EnginePort.Register | internal/modem/at/engine.go:118-123 | the command in flight, a new response and the active command are set together, for SendPDU the prompt channel too |
| AtLines.EnginePort.ClearInFlight | internal/modem/at/engine.go:240-247 | the flight and the prompt channel are forgotten |
| AtLines.EnginePort.DispatchURC | internal/modem/at/urc.go:8-15 | a notification is queued or, when the queue is full, dropped |
| AtLines.EnginePort.ProcessLine | internal/modem/at/engine.go:249-288 | what each kind of line does to the response, the queue and the flight |
| AtLines.OkLine | internal/modem/at/engine.go:276-279 | "OK" ends any command with success and its data |
| AtLines.ErrorLineEnds | internal/modem/at/engine.go:280-284 | "ERROR", "+CME ERROR:" and "+CMS ERROR:" end any command with an error, the line last |
| AtLines.CallResultEnds | internal/modem/at/urc.go:17-27 | the end of a call ends exactly the commands that dial, answer or hang up; to others NO CARRIER is a notification and the rest data |
| AtLines.ReplyIsData | internal/modem/at/urc.go:29-47 | "+X: ..." is data of the command AT+X, listed or not |
| AtLines.OtherReplyIsNotified | internal/modem/at/engine.go:270-273 | a listed "+X: ..." is a notification to every other command |
| AtLines.OtherLineIsData | internal/modem/at/engine.go:258-287 | every other line is data, except the echo, which is ignored |
| AtLines.IdleLineIsNotified | internal/modem/at/engine.go:253-256 | without a command in flight every line is a notification |
| AtLines.QueueInOrder | internal/modem/at/urc.go:8-15 | notifications reach the queue in order until it holds a hundred |
| AtLines.ExchangeAttribution | internal/modem/at/engine.go:249-288 | an answered command gets exactly its own data lines and final result, one that is given up nothing; echo and notifications reach neither |
| AtLines.SessionAttribution | internal/modem/at/engine.go:48-86 | in a session, commands that time out included, every answered command gets its own response, no other gets any, and every other line reaches the queue |
| AtLines.LateReplyGoesToNextCommand | internal/modem/at/engine.go:78-85 | when the reply to a command that timed out comes after the next began and means the same to it, the next one is answered with exactly that reply, and its own goes to the queue |
| AtLines.LateOk | internal/modem/at/engine.go:78-85 | for instance, the late OK of AT+CSQ makes AT+CREG? succeed without data |
| AtEngine.StepKeepsInv | internal/modem/at/engine.go:48-179 | every step of callers and reader keeps the invariant of the engine |
| AtEngine.ReaderNeverBlocks | internal/modem/at/engine.go:249-288 | in every interleaving a command in flight has its own response in place, the reader never sends on a full channel, and one caller at most holds the command lock |
| AtEngine.AnsweredOnce | internal/modem/at/engine.go:111-179 | a command is answered at most once; SendPDU writes its payload at most once and only after a prompt was signalled to it |
| AtEngine.PromptLeadsToPayload | internal/modem/at/engine.go:135-164 | a prompt reaches the caller that waits for it, which can then write its payload |
| AtEngine.AnswerIsTaken | internal/modem/at/engine.go:69-78 | an answer that is there can be taken; Send then unlocks, SendPDU clears the flight |
| AtEngine.AnswersAreFinal | internal/modem/at/engine.go:262-287 | a delivered response object is never changed again |
| AtEngine.StepProjects | internal/modem/at/engine.go:48-288 | the engine under any interleaving is the sequential engine: registering, clearing and lines act as there, no other step is seen |
| AtEngine.InterleavedAttribution | internal/modem/at/engine.go:48-288 | in every interleaving a registered call that is not cleared before a final result is answered with exactly what the lines in between make, and keeps that answer |
| AtEngine.PduReference | internal/modem/at/engine.go:166-173 | the reference line of a sent PDU is data of SendPDU |
| Phone.NormalizePhoneNumber | internal/sms/validator.go:23-91 | the scanning loop and the case analysis, all four errors included |
| Phone.AcceptedExactly | internal/sms/validator.go:23-91 | which spellings are accepted, and the exact cause of each of the four errors |
| Phone.NormalizedDigits | internal/sms/validator.go:56-91 | the digits of an accepted number are those of the input, with 7 for the national 8 or behind the prefix's digits; a plus sign before all but short codes |
| Phone.NormalizedShape | internal/sms/validator.go:23-91 | an accepted number is dialable, its own canonical form and at most 15 digits long; where the default prefix was put before it, it is dialable if and only if the prefix is made of digits |
| Phone.DashedPrefix | internal/sms/validator.go:77-84 | the failing case: the default prefix "+7-" makes a number that cannot be dialled |
| Phone.CanonicalIdempotent | internal/sms/tracker.go:63-86 | canonical recipients are left alone |
| Phone.KeysDiffer | internal/sms/tracker.go:55-57 | keys are equal exactly when canonical recipient and reference are |
| Phone.WireKey | internal/sms/pdu/address.go:10-63 | a normalized number written as an address and read back has the key it was tracked under if and only if it has at most 255 digits |
| Phone.EndlessPrefix | internal/sms/validator.go:77-84 | the failing case: a default prefix of 246 digits makes a number whose report does not find its entry |
| Phone.NationalKey | internal/sms/tracker.go:79-84 | the national 8-form on the wire maps to the key of the +7 number |
| Phone.NationalNormalized | internal/sms/validator.go:67-70 | both spellings are normalized to the same number |
| StatusReport.DecodeStatusReport | internal/sms/pdu/status_report.go:9-86 | total on every input, with the fields, decoded time stamps included, or the error of the layout |
| StatusReport.RoundTrip | internal/sms/pdu/status_report.go:9-86 | a status report written by the layout is read back, whatever optional parameters follow |
| StatusReport.AcceptsExactlyReports | internal/sms/pdu/status_report.go:9-86 | exactly the octets with the layout of SMS-STATUS-REPORT are accepted, and each error has its cause |
| Tracker.DeliveryTracker.Track | internal/sms/tracker.go:89-124 | a new entry, an older one with its key overwritten, and a pending event |
| Tracker.DeliveryTracker.HandleReport | internal/sms/tracker.go:127-161 | the entry is closed with the status of the report, an unknown report ignored |
| Tracker.DeliveryTracker.HandleTimeout | internal/sms/tracker.go:163-183 | whatever the key holds by now expires, or nothing |
| Tracker.StepCloses | internal/sms/tracker.go:127-183 | a report or a timer closes a send exactly when its key is pending, with the status of the report's TP-ST or as expired |
| Tracker.ClosingCause | internal/sms/tracker.go:127-183 | in every run each closing event was made by one report or timer on its key, and has its status |
| Tracker.Conservation | internal/sms/tracker.go:89-183 | in every interleaving tracked sends are pending, overwritten or closed; none is closed twice; a closing event repeats recipient and reference of its Track and has the status of what made it, expired if and only if that was a timer |
| Tracker.FatesSettle | internal/sms/tracker.go:89-183 | a send that is closed or overwritten stays so |
| Tracker.ReportClosesItsTrack | internal/sms/tracker.go:127-161 | the report that a service centre writes for a tracked number and reference closes exactly that send, as delivered, failed or pending by its TP-ST octet |
| Pool.RegisterKeepsUnique | internal/pool/pool.go:68-79 | ids stay unique, the modem is a member, all others are untouched |
| Pool.UnregisterKeepsUnique | internal/pool/pool.go:82-92 | exactly the member with that id is gone |
| Pool.ModemPool.Register | internal/pool/pool.go:68-79 | the loop replaces in place or appends |
| Pool.ModemPool.Unregister | internal/pool/pool.go:82-92 | the loop removes the first match |
| Pool.PickBestSignal | internal/pool/strategy.go:38-49 | a ready modem with the maximum signal, the first of equals |
| Pool.StrongestIsFirst | internal/pool/strategy.go:38-49 | every modem before the chosen one is weaker |
| Pool.PickOperatorMatch | internal/pool/strategy.go:52-62 | the first modem of the detected operator, otherwise the first |
| Pool.OperatorByNumber | internal/pool/strategy.go:65-110 | the operator of a number by the ranges of its three-digit code, behind a country code 7 or 8 if there is one |
| Pool.PrependCandidate | internal/pool/pool.go:157-166 | the chosen modem first, the others in order |
| Pool.PrependPermutes | internal/pool/pool.go:157-166 | with unique ids that loses and doubles nothing |
| Pool.PrependMoves | internal/pool/pool.go:157-166 | the chosen modem moves to the front, the others keep their order |
| Pool.RotatePermutes | internal/pool/pool.go:147-153 | the round-robin order is a permutation |
| Pool.ModemPool.Candidates | internal/pool/pool.go:104-132 | the required modem, or a permutation of the ready ones with the first choice of the strategy in front, or the error; only round-robin moves the counter |
| Pool.ModemPool.Select | internal/pool/pool.go:95-101 | the first candidate, a ready modem; under round-robin the one at the counter, which moves on |
| Pool.RoundRobinIsFair | internal/pool/pool.go:147-153 | n consecutive selections choose each of n ready modems once |
| Pool.SelectTimes | internal/pool/pool.go:95-101 | n calls of Select yield the n selections of the counter, so before the wrap each of n ready modems once |
| Pool.FairAcrossWrap | internal/pool/pool.go:147-148 | across the counter's wrap they do so exactly when n divides its range |
| Pool.UnfairWrap | internal/pool/pool.go:147-148 | of three modems, the three selections from counter value 2^64 - 1 choose the first twice and the last never |
| Pool.PermutationKeepsUnique | internal/pool/pool.go:169-184 | no candidate is listed twice, so failover tries each at most once |
| Pool.TryCandidates | internal/pool/pool.go:175-183 | candidates in order until one succeeds; an error if and only if all failed |
| Pool.ModemPool.SendSMS | internal/pool/pool.go:168-184 | the candidates of the strategy are tried in order, each at most once, until one succeeds; it fails if and only if no modem is ready or every ready one failed |
| MqttClient.IdSource.NextMsgID | internal/mqtt/client_tcp.go:80-87 | the loop ends after at most two rounds with an identifier in 1 to 65535 |
| MqttClient.NextId | internal/mqtt/client_tcp.go:80-87 | the wrap of the 32-bit counter is invisible in the identifiers |
| MqttClient.IdsDistinct | internal/mqtt/client_tcp.go:80-87 | any 65535 consecutively allocated identifiers are distinct and not zero |
| MqttClient.SuccessNeedsAck | internal/mqtt/client_tcp.go:208-249 | in every interleaving a Publish or Subscribe succeeds only after an acknowledgement with its identifier was read after it registered |
| MqttClient.EntryKept | internal/mqtt/client_tcp.go:208-249 | a registered call keeps its entry if and only if no other call of its kind with the same identifier registers or leaves meanwhile |
| MqttClient.AckedCallSucceeds | internal/mqtt/client_tcp.go:208-249 | a call whose write succeeded and whose acknowledgement was read while it held its entry can succeed, and ends so |
| MqttClient.LiveWaitersKeepTheirEntries | internal/mqtt/client_tcp.go:423-452 | while no call outlives 65535 further identifiers, no other call overwrites or deletes its entry, and its acknowledgement reaches it |
| MqttClient.OldWaiterLosesItsEntry | internal/mqtt/client_tcp.go:208-249 | a colliding run: after 65535 further identifiers a second Publish takes the entry over, and the acknowledgement of the first reaches it |
| KnownAnswers.WrittenAddress | internal/sms/pdu/encoder_test.go:126-126 | the number of the test is written as the octets of the test |
| KnownAnswers.NationalType | internal/sms/pdu/address.go:10-20 | numbers without a plus sign have type 0x81 |
| KnownAnswers.ReadTimeStamp | internal/sms/pdu/timestamp.go:9-35 | the time stamp of the tests is the 22nd of September 2026, nine o'clock, zone +8 |
| KnownAnswers.CodingScheme | internal/sms/pdu/decoder.go:60-66 | the two bits of the coding scheme that choose UCS-2 |
| KnownAnswers.SurrogatePair | internal/sms/pdu/ucs2.go:8-16 | a supplementary character as the standard writes it |
| KnownAnswers.MultipartDeliver | internal/sms/pdu/decoder_test.go:51-55 | the SMS-DELIVER of the test, octet by octet, decodes to the fields of the test |
| KnownAnswers.NoticeOfOnePart | internal/sms/assembler.go:238-239 | the wording of a notice and of an update |
| KnownAnswers.Hexadecimal | internal/sms/pdu/encoder.go:170-172 | upper-case digits, high half first, read in either case |
| KnownAnswers.WhiteSpace | internal/sms/pdu/encoder.go:22-22 | which characters trimming removes |

## Left out

- Serial port, TCP sockets, packet encoding of the MQTT library, HTTP API, web UI, configuration, files and JSON: input and output, modelled as events or parameters.
- Clock and timers: instants are parameters, `time.AfterFunc` is an event that may come at any time; arming and stopping timers is therefore not modelled, nor is integer overflow of instants.
- Invalid UTF-8 in Go strings: texts are sequences of Unicode scalar values.
- `DecodeTimestamp`: the model ends at the arguments of `time.Date`; its normalisation of months or minutes out of range is Go's. Fewer than seven octets, for which the code takes the current time, are never handed to it.
- `normalizeNumber` of the rate limiter: a parameter of the limiter, because it rests on Unicode letter and case tables.
- Case folding in `urc.go` and `strategy.go` is modelled for ASCII only; so is white space in the AT byte stream.
- Escape characters that SendPDU writes when it gives up, and the text of log messages.
- Encodings by other names than the known ones behave as `binary` in the code and are represented by it.
- Pointers to stored messages, tracked items and modems are values; only the response objects of the AT engine, which are shared between reader and caller, are modelled as references. A modem's status and signal are a snapshot.
- Assembler.MessageAssembler.FlushPending: the code words the notice from a map that late parts may be writing at that moment; Go makes such a race undefined. The model lets the whole notice see any such parts at once, so of a raced notice only sender, incompleteness and a lower bound on the parts are claimed.
- Pool.TryCandidates: stands for the loops of both SendSMS and Dial; the answer of a modem is a parameter.
- The 140 octets that a network carries in one message: `EndToEnd` forwards longer user data too, as GSM-7 pieces of 154 to 248 septets have it. A network that refuses them delivers exactly the PDUs of `Submit.SingleFits` and `Submit.PartFits`.
- The `Temporary` flag of a status report, which nothing reads.
- RateLimit.RateLimiter.Check: assumes a clock that does not run backwards, which Go's monotonic reading provides.
- AtLines.SessionAttribution: does not cover commands that begin while an older reply is still on its way, because the code then attributes that reply to the newer command (AtLines.LateReplyGoesToNextCommand).
- MqttClient.LiveWaitersKeepTheirEntries: claimed only for calls that do not outlive 65535 further identifiers; MqttClient.EntryKept has the exact condition.
- `matchTopic`, keep-alive, reconnecting, SendUSSD, Hangup, pool status, modem drivers, call service, tariff manager, number filter, AT sanitizer and masking: they would add easy members only.
