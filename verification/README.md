# A verified model of ofcbenchmark

ofcbenchmark simulates OpenFlow 1.0 switches and measures how fast a controller answers them. This project models
the parts of it that keep state and have something to lose, and proves what they promise:

- **INI files** (`CString`, `Chunks`, `QuoteCodec`, `IniLines`, `IniModel`, `IniFiles`, `MiniIniRead`, `MiniIniWrite`,
  `MiniIni`, `Decimal`; laws in `IniLaws`, `IniDangling`,
  `IniTheorems`, and in plain characters in `IniPlain` and `IniTexts`). `ini_puts` streams a file once, counts the bytes of the
  lines it copies, and seeks back to copy them through a 512-byte buffer. The model does the same on arrays and a file
  position, and is proved to leave exactly the text that an edit of the list of lines describes. The reader
  `getkeystring` is modelled separately. On top of both: what was put is got, nothing else changes, deletions delete
  what they should. This holds for every text without NUL, also with lines longer than the buffer and with an
  unterminated last line.
- **Reassembly of the controller's stream** (`Framing`, `Communication`). Chunks of any size go into the 1 MB buffer;
  the messages that come out are a prefix of the framing of the whole stream (OpenFlow Switch Specification 1.0.0,
  section 5.1: a message is as long as its header says).
- **Statistics** (`EventLog`, `Samples`, `TimeWindows`, `Statistics`). The ring of 200000 time stamps, the running sums
  and the time windows are proved to be functions of the log of events since the reset.
- **Messages** (`Packets`, `Dispatch`). Every message a switch sends, byte by byte, and what each received message makes
  it do.
- **Threads** (`SwitchThreads`). The gate of `start_` and `stop_` and the socket lock as a transition system over all
  interleavings.
- **Topology** (`Topology`). The matrix of links, its file, and the lookup.

`dafny verify dfyconfig.toml` checks everything.

## How to read it

Methods stand for the C and C++ code and work in place on arrays and fields. Each is tied to a function of its inputs
or of the old state, and the lemmas are about these functions. Plain `char` is signed, as on x86 Linux, so that the
test `*p <= ' '` accepts the characters from 128 on; `long double` is `real`; counters are unbounded where the source
cannot reach their limits. Clock readings, received chunks and the outcome of one undefined comparison (`junk`, see
below) are parameters.

## Where the code does not do what it says

Each is stated with the exact condition, or with a concrete input.

- `ini_puts` with a missing final line break: when nothing is in the cache, minIni.c:485 compares the character in
  front of its buffer. Only one kind of file notices: one that ends with the section's own header, unterminated
  (`IniLaws.Dangling`; `IniDangling.ThereIsDangling` shows one). If that character happens to be a line break the entry
  is written into the header's line and lost (`IniDangling.DanglingLosesEntry`), and what does not fit there becomes a
  line of its own, which may be read as another key (`IniDangling.LookupAfterDangling`).
- A value comes back only if it fits in a line and is quoted or has no blank at its ends
  (`IniTheorems.PutThenGet`, an equivalence): `check_enquote` looks for a trailing space, not for a leading one and not
  for other blanks.
- Erasing the section without a name drops the first line whatever it is (minIni.c:592). That is right exactly if the
  first line is no bracket line (`IniTheorems.EraseIsErasure`).
- `ini_getsection` and `ini_getkey` stop at the first empty name (`[]`, or a line that begins with `=`), because the
  comparison with the empty name succeeds (`IniTheorems.EnumerationIsExact`).
- `process_buffer_in` reads a length also when only one to three bytes are there (packets.hpp:677-680); if the bytes
  left over from earlier turns then make them look complete, something that is no message is dispatched. A turn keeps
  the invariant exactly if this does not happen (`Communication.Receiver.Turn`), and a run is safe if it is never left
  with one to three bytes (`Communication.ControllerCommunication`). `Communication.StaleLengthIsRead` is a run that is
  not.
- The loop of `process_buffer_in` compares what is left with the size of the message before (packets.hpp:677), so whole
  messages may wait for the next turn. `Communication.Receiver.ProcessBufferIn` says at which message the loop stops,
  and that it dispatches all of them if and only if behind each there is at least as much left as it was long.
  `Communication.BarrierWaits` is a buffer in which a message waits.
- `RTT_mean` divides by all answers, also those without a time stamp, and `PPS_delta_mean_sent` and `_received` divide
  by one window too many (`Statistics.Config.MeanIsExact`, `MeanRateIsExact`, both equivalences).
- The reply to a configuration request has its length in the byte order of the machine and is no message
  (`Packets.CreateGetConfigReply`). No branch of `process_packet` sends it.
- Replies carry the transaction ids 0 and 1 (packets.hpp:216, 231, 252, 277), not the one of the request, as openflow.h:152-154
  asks for; `Dispatch.Switch.ProcessPacket` gives them byte by byte.
- Behind a quoted value that ends with a backslash a comment is not recognised, because the scan takes the closing quote
  for an escaped one (`IniPlain.BackslashHidesQuote`; `IniPlain.QuotedValueIsRead` for all other values).
- An LLDP frame with a VLAN tag is looked for 4 Ethernet headers behind the tag instead of 4 bytes
  (`Dispatch.TaggedLldp`).
- The largest id that `process_packet` accepts, `TIMESTAMP_COUNT + 1`, is never given out and has no place in the ring;
  `Dispatch.HasPlace` excludes it.

## Model

| member | source | states |
|---|---|---|
| `QuoteCodec.CheckEnquote` | minIni.c:414-425 | asks for quotes exactly for values with a special character or a trailing space |
| `QuoteCodec.SaveStrncpy` | minIni.c:121-163 | in each mode the destination holds the truncated, enquoted or dequoted text, terminated and within `maxlen`, and nothing else is written |
| `QuoteCodec.FittingIsMaximal` | minIni.c:136-149 | the enquoting copy takes the longest prefix whose encoding fits, so the whole value exactly if its encoding fits |
| `QuoteCodec.CopyTextFits` | minIni.c:121-163 | whatever the mode, the output is a terminated string shorter than `maxlen` |
| `QuoteCodec.DequoteEscape` | minIni.c:136-157 | removing escapes undoes escaping, for runs of backslashes and quotes too |
| `QuoteCodec.ScanPassesEscaped` | minIni.c:230-240 | no character of an escaped value ends the comment scan, not even when a final backslash hides the closing quote |
| `QuoteCodec.DecodeEnquoted` | minIni.c:228-251 | reading an enquoted text gives it back, whatever it contains |
| `QuoteCodec.DecodeEncode` | minIni.c:228-251 | what is read back for any value: itself if quoted, else itself without outer blanks |
| `QuoteCodec.StoredIsValue` | minIni.c:414-425 | the codec is exact for a value if and only if it is quoted or has no outer blanks |
| `IniPlain.EncodeIs` | minIni.c:414-425 | which values get quotes, what is written and how long it is, in characters |
| `IniPlain.EscapeIs` | minIni.c:139-146 | a backslash in front of every quote and nothing else |
| `IniPlain.DequoteDoubled` | minIni.c:151-155 | doubled quotes stand for quotes, too |
| `IniPlain.PlainValueIsRead` | minIni.c:228-251 | a value without quotes is read without the blanks around it and the comment behind it |
| `IniPlain.QuotedValueIsRead` | minIni.c:228-251 | a quoted value is read exactly, with blanks around it and a comment behind it, unless it ends with a backslash |
| `IniPlain.BackslashHidesQuote` | minIni.c:237-238 | a value for which that exception is needed |
| `IniPlain.EqFoldIsSameName` | minIni.c:186 | names are the same exactly if they have equal lengths and differ in the case of the letters A to Z only |
| `IniPlain.BlankIsSigned` | minIni.c:99-108 | a byte is blank exactly if it is at most a space as a signed character |
| `IniPlain.EntryIsRead` | minIni.c:206-212 | a key, blanks around it, and an equals sign, or a colon if there is no equals sign |
| `IniPlain.CommentIsRead` | minIni.c:212 | in a line that begins with one of both comment characters no key is found |
| `IniPlain.NoKeyIsRead` | minIni.c:209-212 | a line without either sign has no key |
| `IniPlain.HeaderIsRead` | minIni.c:184-186 | a header with its name; without the closing bracket it only ends a section |
| `IniPlain.FoundIsFound` | minIni.c:178-212 | the first entry behind the first header, within the section, is found |
| `IniPlain.FindIsSomewhere` | minIni.c:178-212 | and what is found is that |
| `Chunks.PiecesOfFlat` | minIni.c:476 | what `fgets` reads piece by piece is determined by the text: well-cut pieces put together are cut the same way again |
| `IniFiles.InFile.Read` | minIni.c:476 | `fgets` into part of a buffer: up to the line break or the space left, and the position after it |
| `MiniIniRead.SeekHeader` | minIni.c:178-197 | the first loop finds the section's header, or the section with a number |
| `MiniIniRead.SeekEntry` | minIni.c:202-223 | the second loop finds the key before the next bracket line, or the key with a number |
| `MiniIniRead.ReadValue` | minIni.c:228-251 | the value behind the sign, without comment, outer blanks and quotes, is left in the caller's buffer |
| `MiniIniRead.GetKeyString` | minIni.c:165-253 | for every file: the value of the key, or the numbered name, is left in the buffer; fails exactly if there is none |
| `MiniIniWrite.WriteKey` | minIni.c:442-455 | writes the line for a key and a value, cut where the buffer ends |
| `MiniIniWrite.WriteSection` | minIni.c:427-440 | writes the header line, or nothing for the empty name |
| `MiniIniWrite.CacheAccum` | minIni.c:457-464 | the line is counted exactly if the cache stays below the buffer's size |
| `MiniIniWrite.CacheFlush` | minIni.c:466-486 | from `mark` on, exactly the counted bytes are copied; the loop ends, `pos` never exceeds `size`, and the flag is the last character (or unknown for an empty cache) |
| `MiniIniWrite.CopyLine` | minIni.c:578-582 | output and cached bytes together grow by the line; the second attempt to cache it succeeds |
| `MiniIniWrite.SeekSection` | minIni.c:557-585 | at the end of the search, output and cache together are the lines passed |
| `MiniIniWrite.SeekKey` | minIni.c:601-630 | the same for the search for the key |
| `MiniIniWrite.EditFile` | minIni.c:551-661 | the streaming copy leaves exactly the edited list of lines: one line replaced, inserted, removed or appended |
| `MiniIniWrite.EraseFile` | minIni.c:551-661 | with no key, exactly the lines of the section are left out |
| `MiniIni.IniPuts` | minIni.c:506-662 | for every file and all arguments the new content is the edited one; a value that is there already is not written again; without a file nothing is deleted |
| `MiniIni.IniGets` | minIni.c:265-280 | the buffer holds the value that is found, or else the default, as much of it as fits, and its length is returned; without buffer, room or key nothing is done |
| `MiniIni.IniGetSection` | minIni.c:360-374 | the section name with a number, as long as no name before it is empty |
| `MiniIni.IniGetKey` | minIni.c:386-400 | the same for the keys of a section |
| `MiniIni.IniPutl` | minIni.c:705-710 | puts the canonical decimal text of any 64-bit value |
| `MiniIni.IniGetl` | minIni.c:290-295 | the number the text of the value begins with; the default for a missing or empty entry |
| `IniLines.PutIsFound` | minIni.c:179-212 | in the edited list of lines the lookup finds the new line, in all four places it may be put |
| `IniLines.EditKeepsOthers` | minIni.c:557-661 | in the edited list every other lookup finds what it found before |
| `IniLines.ErasedSection` | minIni.c:592-623 | after a section is erased, what its keys are: those of the next section of that name |
| `IniLaws.EditReadsBack` | minIni.c:551-661 | the edited text, cut into lines again, is the edited list of lines, plus at most one empty line |
| `IniTheorems.PutThenGet` | minIni.c:506-662 | put, then get, for every file: the value comes back if and only if it was there, or fits, has no unprotected outer blank and no dangling header is in the way |
| `IniTexts.PutEditsText` | minIni.c:557-661 | character by character: only the line of the key goes; the new one takes its place, or comes before the next bracket line, or to the end behind a line break if one is missing and the header if the section is |
| `IniTexts.EraseCutsText` | minIni.c:557-661 | erasing takes one stretch of whole lines out of the text: a header of that name and the lines up to the next bracket line |
| `IniPlain.WrittenLinesAre` | minIni.c:427-455 | the written lines, character by character |
| `IniTexts.WrittenIsFound` | minIni.c:165-253 | in a text put together from lines, the entry behind the header is found with its value |
| `IniTexts.ExampleIsFound` | minIni.c:165-253 | for example with other case, blanks and a comment |
| `IniTexts.EnumeratedIsFound` | minIni.c:202-223 | every key that is enumerated is found |
| `IniTexts.FoundIsEnumerated` | minIni.c:202-223 | every key that is found is enumerated |
| `IniTexts.SectionsAreFound` | minIni.c:178-197 | a section is found if and only if it is enumerated |
| `IniTheorems.PutTwice` | minIni.c:528-538 | a second identical put takes the early exit and leaves the file as it is |
| `IniTheorems.LastPutWins` | minIni.c:506-662 | of two puts the second is read |
| `IniTheorems.PutKeepsOthers` | minIni.c:557-661 | setting or removing a key changes no lookup of a key or section that differs otherwise than in case, with one exact exception: the key that the rest of a torn entry is read as |
| `IniTheorems.RemoveThenGet` | minIni.c:602-651 | after a removal the next entry of that key in the section counts, if there is one |
| `IniTheorems.DefaultComesBack` | minIni.c:277-278 | after the only entry is removed a lookup gives the default |
| `IniTheorems.EraseKeepsOtherSections` | minIni.c:592-623 | erasing a section changes no lookup in another one |
| `IniTheorems.EraseIsErasure` | minIni.c:592-595 | the file is left without that section if and only if the section has a name or no bracket line comes first |
| `IniTheorems.LookupIgnoresCase` | minIni.c:186-212 | names that differ in the case of letters only, character by character, give the same lookup |
| `IniTheorems.EnumerationIsExact` | minIni.c:186-223 | a numbered name is found if and only if no name up to it is empty |
| `IniTheorems.TerminatedIsNotDangling` | minIni.c:485 | for files that end with a line break the undefined comparison cannot matter |
| `IniDangling.ThereIsDangling` | minIni.c:485 | a file for which it matters |
| `IniDangling.LookupAfterDangling` | minIni.c:562-567 | what every lookup gives after a put into such a file |
| `IniDangling.TornIsNotValue` | minIni.c:202-251 | the torn end of an entry's line is never read as that entry with its value |
| `IniDangling.DanglingLosesEntry` | minIni.c:485 | a put into such a file is lost, torn apart or not |
| `IniTheorems.PutlThenGetl` | minIni.c:705-710 | `ini_putl`, then `ini_getl`, gives every 64-bit value back |
| `Decimal.StrReverse` | minIni.c:667-677 | reverses the string in place |
| `Decimal.Long2Str` | minIni.c:679-695 | leaves the canonical decimal text, also of the smallest value |
| `Decimal.LongHasNineteenDigits` | minIni.c:707 | that text has at most 20 characters, so it fits the buffer of 32 |
| `Decimal.StrToLOfText` | minIni.c:294 | `strtol` inverts it |
| `Decimal.TextIsCanonical` | minIni.c:679-695 | a sign only for negative numbers, digits, no leading zero |
| `Decimal.DigitsAppend` | minIni.c:687-688 | and these digits |
| `Decimal.StrToLReads` | minIni.c:294 | `strtol` skips white space, takes a sign, stops behind the digits and stays in the range of a `long`, for every number |
| `Decimal.StrToLOfNone` | minIni.c:294 | it gives 0 for what is no number |
| `Framing.FramesOfJoin` | packets.hpp:677-718 | the messages that a stream was put together from are the ones it is cut into |
| `Framing.FramesSplit` | packets.hpp:677-718 | every stream is its messages and a remainder without one |
| `Framing.FramesGrow` | packets.hpp:677-718 | more bytes only add messages |
| `Communication.Receiver.ProcessBufferIn` | packets.hpp:668-720 | the messages of the buffer are dispatched in order up to the first behind which less is left than it was long, so all of them if and only if there is none such |
| `Communication.ShorterWaits` | packets.hpp:677 | of two messages the second waits if and only if it is shorter than the first |
| `Communication.BarrierWaits` | packets.hpp:677 | a barrier request behind a longer echo request does |
| `Communication.Receiver.Recover` | switch.hpp:542-557 | the rest is moved to the front; the branch for too many processed bytes is dead |
| `Communication.Receiver.Turn` | switch.hpp:516-559 | the turn keeps "dispatched messages, then the buffer, are all bytes received" if and only if no stale length is read; progress if there is a message; nothing is left if and only if the loop did not stop early; all of the buffer afterwards |
| `Communication.Receiver.DispatchedIsPrefix` | switch.hpp:516-559 | the framing of all that was received is what was dispatched and what the buffer holds |
| `Communication.Receiver.Drain` | switch.hpp:516-559 | turns without new bytes dispatch every whole message, unless one to three bytes are behind the last one |
| `Communication.ControllerCommunication` | switch.hpp:514-559 | for every way the stream arrives in chunks: exactly the bytes that `recv` gave are received, the dispatched messages are a prefix of the stream's, and all of them after enough turns; it goes wrong only if it was left with one to three bytes |
| `Communication.StaleLengthIsRead` | packets.hpp:679-680 | it does go wrong: 256 bytes of a message, then three bytes of the next |
| `EventLog.RoadIsInRing` | config.hpp:348-396 | a packet that waits has its time at its place in the ring |
| `EventLog.RingIsOnTheRoad` | config.hpp:348-396 | every time in the ring is that of a packet that waits |
| `EventLog.PlacesDiffer` | config.hpp:353 | two waiting packets never share a place |
| `EventLog.MatchedRoundTrip` | config.hpp:373-395 | an answer is matched if and only if a packet with its id waits; it is the only one, and the round trip is measured from when it was sent |
| `EventLog.StaysOnTheRoad` | config.hpp:348-396 | a packet waits until it is answered or the ring has gone round |
| `EventLog.RoundTripIsMeasured` | config.hpp:348-396 | a packet, anything but its answer and less than 200000 packets, then its answer: exactly that round trip time is added |
| `EventLog.OverrunIsGivingUp` | config.hpp:355-357 | the overrun message comes if and only if the packet 200000 before still waits |
| `EventLog.RingIsUnlimited` | config.hpp:348-396 | without an overrun the ring does what an unlimited table would |
| `EventLog.PacketsAreConserved` | config.hpp:351-359 | sent packets are matched answers, occupied places and overwritten ones |
| `EventLog.AnswersAreConserved` | config.hpp:377-383 | counted answers are matched ones and those without a time stamp |
| `EventLog.EventsAreCounted` | config.hpp:351-377 | the counters are the numbers of events of their kind |
| `TimeWindows.Histogram` | config.hpp:401-444 | the windows together count every packet and every matched answer exactly once |
| `TimeWindows.RatesAreConserved` | config.hpp:289-300 | the sum of the saved rates times the window, and the open window, account for all packets |
| `TimeWindows.WindowCounts` | config.hpp:361-392 | the counts of a window are the numbers of the packets and matched answers with a time in it |
| `TimeWindows.RttHistogram` | config.hpp:391-393 | the windows together hold every round trip time |
| `Samples.CauchySchwarz` | config.hpp:253-256 | the square of a sum is at most the number of samples times the sum of squares |
| `Samples.VarianceNonNegative` | config.hpp:318-326 | the variance is not negative for any divisor at least the number of samples |
| `Samples.VarianceIsDeviation` | config.hpp:253-256 | times its divisor it is the sum of the squared distances from the mean, of the samples padded with zeros, and 0 if and only if all of these are equal |
| `Samples.Extremes` | config.hpp:385-386 | the extremes bound the samples and are among them |
| `Statistics.Config.ResetStatistic` | config.hpp:197-239 | establishes the invariant for the empty log |
| `Statistics.Config.SendPacketID` | config.hpp:348-367 | the invariant is kept: every field is what the log with this packet says; the id and the overrun message |
| `Statistics.Config.ReceivePacketID` | config.hpp:373-396 | the same for an answer, matched or not |
| `Statistics.Config.ChangeDelta` | config.hpp:401-408 | saves the windows up to the clock and ends; the open window is the one that contains it |
| `Statistics.Config.SaveDelta` | config.hpp:413-444 | one more window is kept as the log says, and the counters are those of an empty window |
| `Statistics.Config.VariancesNonNegative` | config.hpp:253-256 | RTT_VAR and both PPS_delta_VAR are not negative in every reachable state |
| `Statistics.Config.VariancesAreVariances` | config.hpp:253-326 | the three reported variances are those of the round trip times and of the saved rates, with a zero for every missed answer and for the open window |
| `Statistics.Config.SavedWindow` | config.hpp:413-444 | what is kept of every window: packets and matched answers per second, rounded down, and the mean round trip time, if there is one |
| `Statistics.Config.NothingReceived` | config.hpp:421-438 | without a matched answer every window reports none |
| `Statistics.Config.RttsAreKept` | config.hpp:392-442 | the round trip times of all windows add up to all there are |
| `Statistics.Config.ExtremesAreKept` | config.hpp:385-434 | the fields for the extremes bound the round trip times and the rates, and are among them |
| `Statistics.Config.Conservation` | config.hpp:348-396 | the fields obey both conservation laws |
| `Statistics.Config.RateConservation` | config.hpp:289-300 | the fields of the rates account for every packet and matched answer; the window counters agree |
| `Statistics.Config.MeanIsExact` | config.hpp:245-248 | RTT_mean is the mean if and only if no answer was missed or all took no time |
| `Statistics.Config.MeanRateIsExact` | config.hpp:305-316 | the mean rates are the means of the saved windows if and only if nothing happened in them |
| `SwitchThreads.InvAlways` | switch.hpp:615-673 | in every interleaving the gate and the socket lock are held by who they should be, and the wire is whole messages and the holder's part |
| `SwitchThreads.WireIsFramed` | switch.hpp:649-665 | in every interleaving the bytes on the connection are framed into exactly the messages sent, in the order of the lock |
| `SwitchThreads.StoppedBatch` | switch.hpp:1318-1328 | between the return of `stop_` and the next `start_` the batch thread finishes at most one packet, and none if it was not past the gate |
| `SwitchThreads.GateOpens` | switch.hpp:621-622 | the batch thread can pass if and only if it is not stopped |
| `SwitchThreads.BatchGoesOn` | switch.hpp:616-673 | nothing else keeps it: it, or the holder of the socket, can take a step |
| `SwitchThreads.StopReturns` | switch.hpp:1326 | a called `stop_` gets the gate, at the latest after one step of the batch thread |
| `SwitchThreads.SocketIsFreed` | switch.hpp:1377-1388 | the holder of the socket lock can finish its message and give the lock back |
| `Packets.CreateHello` | packets.hpp:209-222 | a hello of 8 bytes |
| `Packets.CreateError` | packets.hpp:224-239 | an error message of 12 bytes with type and code of an unknown vendor |
| `Packets.CreateEchoReply` | packets.hpp:245-258 | an echo reply of 8 bytes |
| `Packets.CreateFeaturesReply` | packets.hpp:270-284 | the reply of 224 bytes, with the switch's number as 64-bit datapath id and the rest as in the template |
| `Packets.CreatePacketIn` | packets.hpp:308-339 | the packet carries its id in both fields, the sent count and the switch in its addresses, and else the template |
| `Packets.CreateGetConfigReply` | packets.hpp:291-300 | carries the configuration, but its length field says 3072 and it is no message |
| `Packets.CreateRelayed` | packets.hpp:540-556 | a packet_in that ends where the frame ends, with the port of the far end |
| `Packets.Encapsulate` | mypcap.hpp:83-118 | a captured packet inside a packet_in, followed by two zero bytes; nothing at the end of the file |
| `Packets.FixedMessages` | packets.hpp:209-258 | hello, echo reply and error, byte by byte |
| `Packets.PacketInBytes` | packets.hpp:320-332 | where the id, the sent count and the switch stand in a packet, byte by byte |
| `Packets.FeaturesBytes` | packets.hpp:273-280 | the head of the features reply, byte by byte |
| `Packets.FramedBytes` | packets.hpp:547-557 | the head of a relayed and of a captured packet, byte by byte |
| `Packets.ByteOrder` | packets.hpp:323-330 | numbers in network order, and the sent count in the order of the machine |
| `Packets.SourcesDiffer` | packets.hpp:326-332 | source addresses differ exactly if the sent counts do; the packets exactly if counts or ids do |
| `Dispatch.Switch.ProcessPacket` | packets.hpp:400-660 | by the type byte: which reply is sent, byte by byte; what becomes of a configuration and of a buffer id; the relayed frame; nothing else, and nothing at all for other types; whatever is sent is a whole message |
| `Dispatch.Switch.SendPacketIn` | switch.hpp:657-672 | one packet is sent and logged, under the same id |
| `Dispatch.Switch.SendCaptured` | switch.hpp:636-655 | the same for a captured packet; at the end of the file nothing is sent and no id used |
| `Dispatch.EffectIsInTheMessage` | packets.hpp:400-660 | what a message does depends on its own bytes only, not on those behind it in the buffer |
| `Dispatch.AnswerNamesItsPacket` | packets.hpp:570-621 | an answer with the buffer id of a packet is counted for that packet: always in a flow_mod, in a packet_out if and only if it carries no LLDP |
| `Dispatch.AnswerIsMeasured` | packets.hpp:570-621 | from the bytes that are sent to the bytes that come back: the answer adds to the running sums exactly the time since the packet it answers |
| `Dispatch.LinksAreDiscovered` | packets.hpp:511-566 | a discovery frame sent out at either end of a link comes back unchanged with the port of the other end |
| `Dispatch.DiscoveryOnTheWire` | packets.hpp:117-193 | the same for the bytes of a packet_out: the frame sent to a port at either end of a link comes back, byte by byte, with the port of the other end |
| `Dispatch.DiscoveryProbes` | packets.hpp:120-165 | which bytes of an untagged frame make it a discovery frame |
| `Dispatch.OtherPacketOut` | packets.hpp:511-583 | any other LLDP is dropped, any other untagged frame makes it an answer |
| `Dispatch.NothingToDiscover` | packets.hpp:521-526 | at a port without a link nothing comes back |
| `Dispatch.TaggedLldp` | packets.hpp:128-140 | a tagged LLDP frame is recognised if and only if the type stands 68 bytes into it, and there is one that is missed |
| `Topology.Matrix.Clear` | topology.hpp:47-53 | the matrix of no links |
| `Topology.Matrix.SetConnections` | topology.hpp:87-97 | the matrix of one link more |
| `Topology.Matrix.GetConnection` | topology.hpp:68-85 | the first switch on that port and its port back, or 0 and 0 if there is none |
| `Topology.Matrix.LoadFromFile` | topology.hpp:114-155 | the matrix of the links that the lines stand for |
| `Topology.LinksOfFile` | topology.hpp:99-155 | a written list of links is read as that list, and an empty last line changes nothing |
| `Topology.HalfALink` | topology.hpp:102-149 | a line without an equals sign is a link of its port to itself; one that begins with it is skipped |
| `Topology.DetachOtherwise` | topology.hpp:102-109 | without the character both parts are everything, with it in front they are empty |
| `Topology.ToIntIs` | topology.hpp:22-95 | of a port its lowest 32 bits are kept |
| `Topology.BothWays` | topology.hpp:95-96 | the matrix is symmetric in which switches are linked |
| `Topology.AllLinksAreFound` | topology.hpp:68-97 | every link is found from both ends if and only if no port is used twice and no two switches are joined twice |
| `Topology.LookupIsInvolution` | topology.hpp:68-85 | looking up what was found leads back |
| `Topology.UnusedPort` | topology.hpp:68-85 | the remote port is 0 for unused ports, and without clashes only for these |
| `Topology.LoadedTopology` | topology.hpp:68-155 | the equivalence holds for topologies that were loaded from a file |

## Left out

- Statistics.Config.ReceivePacketID: the id `TIMESTAMP_COUNT + 1`, which the checks in packets.hpp let through, has no place in the array; what the access then does is not defined and not modelled.
- Dispatch.Switch.ProcessPacket: that id, frames that do not fit the relay's buffer of 255 bytes, and messages whose fields lie outside the receive buffer are excluded for the same reason.
- Communication.ControllerCommunication: whether a run that is left with one to three bytes goes wrong is said for each turn, not for the run, because it depends on the bytes that earlier turns left in the buffer.
- Erasing with neither section nor key is modelled, but the lookups after it only if the first line is no bracket line.
- File errors: opening and renaming succeed, and the temporary file replaces the old one at once. NUL characters in a file, locales other than C, and wide characters.
- `ini_getf`, `ini_putf`, `ini_getbool` and the C++ wrappers of `minIni.h` and `wxMinIni.h`: they add only easy members.
- The second loop of `ini_puts` with and without a key is two methods, `SeekKey` and `SkipSection`.
- Messages whose length field is less than 8 (`Framing.Legal`): the stream cannot be framed behind one.
- Errors of `recv`, disconnects, connection setup, sleeping, and the life of the threads. `send` sends all it is given.
- The statistics calls of different threads do not overlap, and each call reads the clock once (`reset_statistic` twice). Without that the counters race.
- Rounding of `long double`; `sqrt` and the coefficients of variation; the NaN of a window without answers is a missing value. `PPS_sent` and `PPS_received` are a division by the clock.
- Ids are 1 to `TIMESTAMP_COUNT`, and less than 2^31 packets are sent.
- The four fields of a series of samples, and the counters of the open window, are one record each.
- Calls of `start_` and `stop_` alternate, and the batch thread has taken the gate for the first time before the first `start_`.
- The order in which threads get a free lock, so no claim that a particular thread gets it in the end.
- Which switch a discovered frame is delivered to: the source always hands it to switch 1.
- `Dispatch` handles a message by value, from its first byte to the end of the buffer; the position in the buffer belongs to `Communication`.
- Links from a switch to itself, and links with port 0, have no laws.
- Mission control commands, CSV output, debug output, reading of the capture file format, random numbers and allocation wrappers.
