# Verified model of the midi2 stream machinery and its MIDI-CI responder

This project models the parts of the midi2 library that carry state, and two of
its example transmitters:

- the MIDI 1.0 byte stream to UMP converter (`ByteStream`, `ShortMessages`,
  `Converter`, `ConverterState`, `Conversion`);
- the fragmenting SysEx senders and the bounded reassemblers (`Ump`, `Reassembly`,
  `PacketRuns`, `Processor`, `Senders`), and the UMP Stream text senders with the
  dispatcher that reads them (`StreamText`);
- the MIDI-CI frames of variable length, the small JSON scanners and printers, the
  Property Exchange handlers, the MUID lifecycle and the subscriber registry
  (`CiMessage`, `Json`, `PropertyExchange`, `PeResponder`, `Responder`, `Replies`,
  `MuidLifecycle`, `ResponderState`, `Subscribers`), and whole transactions across a
  link (`Outcomes`, `Transaction`);
- two transmitters shared by threads, as interleaved steps (`SharedTransmit`,
  `RunProtection`, `Pipeline`);
- the layouts that all of them share, in numbers (`WireFormat`).

`dafny verify dfyconfig.toml` checks everything.

## How it is built

Code that updates a struct or a buffer is a class or a method over arrays. Each such
method is proved equal to a function on values: `Converter.Feed`, `Processor.Process`,
`Reassembly.Step`, `Json.ArrayCount`, `PropertyExchange.Resource`,
`PeResponder.GetAnswer` and `SetAnswer`, `Responder.Process`, `Pipeline.Offer`. What
the library promises is then proved of those functions, over every input and every run.

The independent references are: `ByteStream.Parse`, which judges each byte of a stream
by the last status byte before it and the data bytes since, with no converter state;
`Reassembly.Survivors`, the messages whose every packet a sink accepted; `Json.Print`,
the text of any JSON value; a set of (MUID, 36-character name) pairs; and, for the
transmitters, a log of what reached the transport.

Functions that a method and its laws share are themselves fixed by laws that do not
mention them, in literal bytes and numbers: `ShortMessages` (how many data bytes a
status takes, and the word it makes), `WireFormat` (message lengths, the group filter,
packets, headers, frames cut short), `PacketRuns` (what any packets deliver, said of
the packets), `Outcomes` (what a Get and a Set come to, said of the properties),
`Replies` (every other reply, byte by byte) and `MuidLifecycle.DrawsIff` (which
messages make the responder draw a MUID).

UMP words are 32-bit integers read as four bytes. The builders OR shifted bytes into
zeroed words; OR is defined bit by bit and shown to work byte by byte, so that each
builder is proved to write the padded image of its header and payload. The 7-bit
fields of MIDI-CI frames occupy disjoint bits, and their OR is written as a sum.

A sink (`write_fn`) is an arbitrary function from the number of the write to accept or
refuse. The random number generator is an arbitrary function from the number of the
draw to a word. Property getters are given by the value they return at the time of the
inquiry, setters by which values they accept. The group mask is a set of groups.

## What the code does that its documentation does not say

- `src/midi2_ci.h:113` says reserved MUIDs are avoided. After nine reserved draws the
  last resort is 0x12345678, which does not fit 28 bits (`Responder.FallbackIsTooWide`).
  The MUID stays usable, whatever messages come, if and only if no nine draws in a row
  are reserved (`MuidLifecycle.MuidStaysUsable`).
- The MUID that is given up is not excluded from the draw (`src/midi2_ci.c:131-148`).
  A generator that makes it again keeps it, and the responder then broadcasts an
  Invalidate of the MUID it goes on using (`MuidLifecycle.RedrawMayKeep`). When a
  message changes the MUID, and when a replaced MUID is never used again, is given by
  `MuidLifecycle.MuidChangesIff` and `MuidLifecycle.ReplacedMuidIsSilent`.
- `src/midi2_ci.h:331-336` describes limits of Property Exchange that
  `src/midi2_ci.c` no longer has; the model follows the `.c` file.
- `examples/rpi-pico-device-zephyr/src/main.c:168-172` says no thread's packets can
  fall into another's run. The code keeps one flag for all groups, both SysEx widths
  and all streams, so a COMPLETE for another group lets go of the mutex at the end of
  the call (`SharedTransmit.OtherGroupLetsGo`). A thread's runs are its own in every
  interleaving if and only if each of its calls ends with no run of any group or
  stream open, or with a START as the last packet that opened or closed one
  (`RunProtection.ProtectedIff`).
- An F7 outside a SysEx does nothing, and in particular does not cancel Running
  Status (`src/midi2_conv.c:190`).
- The byte count of the enabled profiles is kept in 16 bits
  (`src/midi2_ci_dispatch.c:188`): a frame of 21 bytes that claims 13108 profiles is
  accepted (`CiMessage.EnabledOverrun`). In a frame of up to 65535 bytes the enabled
  list lies within the frame if and only if it has at most 13107 profiles; the
  disabled list is not checked at all (`CiMessage.ListsInFrame`,
  `CiMessage.DisabledUnchecked`).
- The array counter's 16-bit index would start again at 0 on a body of 65535 bytes that
  ends in the middle of an escape; `Json.IndexFits` excludes exactly that. The
  responder counts at most 448 bytes.
- `emit_catalog` runs for ever if its first entry opens a SysEx7 run and no entry of
  the catalog ends one (`Pipeline.PassEndsIff`).
- Removing a property, or clearing its subscribable flag, leaves its subscribers.

## Model

| member | source | states |
|---|---|---|
| Words.OrBe | src/midi2_msg.h:670-678 | OR of two words is the OR of their bytes, place by place |
| Ump.ImageAppend | src/midi2_msg.h:675-679 | ORing a byte, shifted to the next free place, into a zero-padded packet gives the packet of one byte more |
| Ump.SystemWord | src/midi2_msg.h:419-432 | the word holds type 1, the group, status and both data bytes, at their places |
| Ump.VoiceWord | src/midi2_msg.h:1081-1088 | the word holds type 2, the group, status and both data bytes cut to 7 bits |
| Ump.SysEx7Packet | src/midi2_msg.h:667-680 | the two words are header, count and up to six bytes, zero padded; words behind them are untouched |
| Ump.SysEx8Packet | src/midi2_msg.h:996-1017 | the four words are header, count including the stream id, stream id and up to 13 bytes, zero padded |
| Ump.SysEx7Unpack | src/midi2_proc.c:66-77 | unpacking a packed SysEx7 packet gives its type, group, form and bytes back |
| Ump.SysEx8Unpack | src/midi2_proc.c:122-143 | unpacking a packed SysEx8 packet gives its type, group, form, stream id and bytes back |
| Reassembly.BoundedRefinesUnbounded | src/midi2_proc.c:87-113 | at every step of every run a bounded reassembler holds the prefix that fits of what an unbounded one holds, and delivers the same messages, cut to that prefix unless they came in one packet |
| Reassembly.FragmentCount | src/midi2_proc.c:276-288 | the number of packets is the least that can hold the bytes |
| Reassembly.FragmentsFit | src/midi2_proc.c:272-287 | every packet of a message has its key, a form up to END, and between one byte and a packetful of bytes |
| Reassembly.Prefix | src/midi2_proc.c:87-113 | from any receiver state, the first k packets of a message deliver it if they are all of them and nothing otherwise |
| Reassembly.RoundTrip | src/midi2_proc.c:87-113 | from any receiver state with room, sending a message causes exactly one delivery, of that message, in the least number of packets |
| Reassembly.AcceptedAll | src/midi2_proc.c:267-273 | a sender that stops at the first refusal has put all its packets on the wire exactly if none was refused |
| Reassembly.LossySink | src/midi2_proc.c:252-289 | through a sink that refuses any writes, a receiver in any state delivers exactly the messages whose every packet was accepted, once each and in order |
| Processor.BoundedProcess | src/midi2_proc.c:190-223 | one message of any type: bounded and endless processor stay related, and fire the same callbacks up to cutting |
| Processor.BoundedProcessor | src/midi2_proc.c:190-223 | over any sequence of UMP words: what is stored never exceeds the buffers, and each payload delivered is the prefix that fits of what an endless processor delivers at the same message |
| Processor.State.constructor | src/midi2_proc.c:40-56 | all groups on, no message in progress, no callbacks fired |
| Processor.State.ProcessSysEx7 | src/midi2_proc.c:61-114 | the buffer, group and callbacks after a packet are those of the reassembly step; SysEx8 state is untouched |
| Processor.State.ProcessSysEx8 | src/midi2_proc.c:119-183 | the same for SysEx8 and its stream id |
| Processor.State.Feed | src/midi2_proc.c:190-234 | state and callbacks after any words are those of Process: short messages dropped, SysEx before the group filter, Utility and Stream past it |
| Processor.AppendClipped | src/midi2_proc.c:98-104 | the buffer holds old bytes and new, cut at its end |
| WireFormat.Callbacks | src/midi2_proc.c:190-223 | in numbers, for any words: messages of types 0, 1, 2, 6, 7 are called back with 1 word, 4, 8, 9, 10 with 2, 11, 12 with 3, 13, 14, 15 with 4, if their group is on or they have none; one cut short does nothing |
| WireFormat.SysExCallbacks | src/midi2_proc.c:190-216 | types 3 and 5 ignore the group filter, and do nothing without a buffer |
| WireFormat.SysEx7Numbers | src/midi2_msg.h:667-680 | both words of a SysEx7 packet as numbers |
| WireFormat.SysEx8Numbers | src/midi2_msg.h:996-1017 | all four words of a SysEx8 packet as numbers |
| WireFormat.SysEx7Reads | src/midi2_proc.c:66-77 | of any two words: as many bytes as declared, at most six, each from its place and cut to 7 bits |
| WireFormat.SysEx8Reads | src/midi2_proc.c:122-143 | of any four words: the stream id and as many bytes as declared less one, at most 13, each from its place |
| WireFormat.PacketKeys | src/midi2_proc.c:61-66 | group, form and stream id of any packet, as digits of its first word |
| WireFormat.FragmentAt | src/midi2_proc.c:252-289 | the i-th packet holds the i-th six (or 13) bytes and says whether it is the only, first, last or another one |
| WireFormat.WritesToRefusal | src/midi2_proc.c:267-289 | a sender writes up to the first refusal, that included, and no further |
| PacketRuns.PacketMeaning | src/midi2_proc.c:79-113 | for any packets of any keys, forms and order, said of the packets alone: a one-packet message is delivered whole; an END delivers, cut to the buffer, the bytes gathered since the START of its message, or else since the first packet of its key behind an END or another key, a leading CONTINUE left out; no other packet delivers anything |
| PacketRuns.WhereBegins | src/midi2_proc.c:87-97 | every packet of a longer message has a beginning |
| PacketRuns.BeginsOnce | src/midi2_proc.c:87-97 | and only one |
| PacketRuns.OneKeyOnly | src/midi2_proc.c:91-96 | no payload holds a byte of a packet with another group or stream |
| PacketRuns.OtherKeyDiscards | src/midi2_proc.c:91-96 | a START of one key, then an END of another, with or without a CONTINUE before it: only the last packet's bytes are delivered |
| PacketRuns.CallbacksAreDeliveries | src/midi2_proc.c:190-216 | whatever messages are processed, the SysEx callbacks are the deliveries for the packets of their type, each type for itself |
| Senders.WritePacket | src/midi2_proc.c:272-273 | after a write, what is still owed to the wire is the rest of the packets, or nothing if it was refused |
| Senders.SendSysEx7 | src/midi2_proc.c:252-289 | the wire grows by exactly the accepted beginning of the message's packets, and nothing is written after a refusal |
| Senders.StreamForm | src/midi2_proc.c:303-311 | the table gives Complete, Start, Continue and End from first and last |
| Senders.SendSysEx8 | src/midi2_proc.c:438-462 | the same for SysEx8 |
| Senders.ProcessFragment7 | src/midi2_proc.c:61-114 | processing the words of a fragment is one reassembly step with that fragment |
| Senders.ProcessFragment8 | src/midi2_proc.c:119-183 | the same for SysEx8 |
| Senders.LossySysEx7 | src/midi2_proc.c:252-289 | on the words: whatever writes are refused and whatever groups are filtered, the callbacks of a receiver in any state are exactly the messages accepted to their last packet |
| Senders.LossySysEx8 | src/midi2_proc.c:438-462 | the same for SysEx8, any bytes and stream ids |
| Senders.RoundTripSysEx7 | src/midi2_proc.c:252-289 | one message to a receiver in any state: one callback, same group and bytes, ceil(n/6) packets |
| Senders.RoundTripSysEx8 | src/midi2_proc.c:438-462 | one callback, same group, stream id and bytes, ceil(n/13) packets |
| ByteStream.RealTimeTransparent | src/midi2_conv.c:152-167 | deleting the Real-Time bytes of a stream deletes their messages from its parse and changes no other |
| ShortMessages.TwoDataBytes | src/midi2_conv.c:44-85 | behind any stream, statuses 80 to BF and E0 to EF take two data bytes and make one word, given as a number; two more data bytes make another (Running Status) |
| ShortMessages.OneDataByte | src/midi2_conv.c:44-85 | statuses C0 to DF take one data byte, and each further one makes another word |
| ShortMessages.ByItself | src/midi2_conv.c:44-85 | a Channel Voice message as the whole stream is one callback with one word, given as a number |
| ShortMessages.SystemCommon | src/midi2_conv.c:44-61 | F1 and F3 take one data byte, F2 two; they establish no Running Status |
| ShortMessages.StandAlone | src/midi2_conv.c:124-143 | F4, F5 and F6 are messages by themselves, and data bytes behind them mean nothing |
| ShortMessages.RealTimeAlone | src/midi2_conv.c:157-167 | F8 to FF are messages by themselves anywhere; an F7 outside a SysEx is none |
| ShortMessages.SysExMeans | src/midi2_conv.c:170-226 | F0, any 7-bit bytes and F7 are one SysEx of those bytes; so are they cut off by another F0, a Channel Voice status or F1 to F3, unless there are none |
| ShortMessages.AfterEnd | src/midi2_conv.c:185-191 | data bytes and F7s behind the end of a SysEx mean nothing |
| ShortMessages.StrayEnd | src/midi2_conv.c:185-191 | an F7 outside a SysEx cancels neither Running Status nor half a message |
| ShortMessages.Orphans | src/midi2_conv.c:228-238 | data bytes without a status mean nothing |
| Converter.FeedReachable | src/midi2_conv.c:149-262 | every byte keeps the state invariant: at most 5 bytes buffered, no Running Status in a SysEx, position below the needed count of at most 2 |
| Converter.FeedMessages | src/midi2_conv.c:149-262 | a byte makes at most two messages, all well formed and on the converter's group |
| Converter.RunReachable | src/midi2_conv.c:149-291 | the invariant holds in every run |
| Converter.FeedKeepsOrder | src/midi2_conv.c:89-118 | messages sent, then buffer, are the buffer before and the byte, if it is payload or Real-Time |
| Converter.FeedGrammatical | src/midi2_conv.c:89-118 | the messages of one byte continue a grammatical sequence, and the started flag tells whether a SysEx is open on the wire |
| Converter.RunGrammatical | src/midi2_conv.c:149-262 | section 7.7.1 of M2-104-UM in every run: Start and Complete only with no SysEx open, Continue and End only in one, and in one nothing else but Real-Time |
| Converter.RunFull | src/midi2_conv.c:89-118 | in every run a packet that does not end its SysEx has six bytes, unless a Real-Time message follows at once |
| Conversion.EmitEnd | src/midi2_conv.c:89-118 | the closing packet makes the receiver deliver all data bytes since F0 |
| Conversion.EmitMore | src/midi2_conv.c:95-104 | an inner packet delivers nothing and leaves the receiver with all data bytes since F0 |
| Conversion.RealTimeByte | src/midi2_conv.c:157-167 | a Real-Time byte: converter and receiver do what the parse says |
| Conversion.StatusByte | src/midi2_conv.c:170-183 | F0 or another status byte, inside a SysEx or not: converter and receiver do what the parse says |
| Conversion.EndByte | src/midi2_conv.c:185-191 | F7: converter and receiver do what the parse says |
| Conversion.SysExDataByte | src/midi2_conv.c:220-226 | a data byte in a SysEx: converter and receiver do what the parse says |
| Conversion.ChannelDataByte | src/midi2_conv.c:240-261 | a data byte elsewhere, with Running Status: converter and receiver do what the parse says |
| Conversion.StreamMeaning | src/midi2_conv.c:149-262 | any byte string, converted and reassembled from any receiver state with room, makes exactly the events of its parse, in order |
| Conversion.WirePosition | src/midi2_conv.c:89-118 | after every prefix, bytes sent with packet boundaries erased, then the at most 5 buffered, are the payload and Real-Time bytes received, in order |
| Conversion.ConvertThenProcess | src/midi2_proc.c:61-114 | on the words: the callbacks of a processor fed with a converted stream are the events of its parse |
| Conversion.RealTimeTransparency | src/midi2_conv.c:152-167 | two runs, with and without the Real-Time bytes: the same payloads and other messages, though packet boundaries differ |
| ConverterState.State.constructor | src/midi2_conv.c:37-41 | the initial state, group cut to four bits, nothing ready |
| ConverterState.State.EmitSysexPacket | src/midi2_conv.c:89-118 | the words of the packet of that form and the state after it |
| ConverterState.State.ConvTakeStatus | src/midi2_conv.c:124-143 | the new Running Status, and a word exactly for F4, F5 and F6 |
| ConverterState.State.EmitChannelMsg | src/midi2_conv.c:65-85 | the Channel Voice or System Common word of the collected data |
| ConverterState.State.EmitRealTime | src/midi2_conv.c:157-167 | a partial SysEx packet goes out before the Real-Time message |
| ConverterState.State.InterruptSysEx | src/midi2_conv.c:199-218 | the open SysEx is closed if any of it exists, then the status is taken, its own message behind |
| ConverterState.State.OpenSysEx | src/midi2_conv.c:170-183 | the open SysEx is closed if any of it exists, then a new one is open and Running Status is gone |
| ConverterState.State.TakeSysExByte | src/midi2_conv.c:220-226 | the byte is buffered, the sixth completes a packet |
| ConverterState.State.TakeDataByte | src/midi2_conv.c:240-261 | orphans are dropped, and a full group of data makes a message |
| ConverterState.State.Feed | src/midi2_conv.c:264-280 | the object after a byte is Converter.Feed of the object before; true exactly if a message is ready |
| ConverterState.State.FeedInner | src/midi2_conv.c:149-262 | the same for the inner function |
| ConverterState.State.Next | src/midi2_conv.c:282-291 | the queued message becomes the current one; false exactly if there was none |
| ConverterState.Drain | src/midi2_conv.h:60-67 | the do/while hands every ready message to the processor, in order |
| ConverterState.ConvertStream | src/midi2_conv.h:60-67 | the canonical loop over a whole stream adds exactly the events of its parse to the callback log |
| StreamText.BuildText | src/midi2_msg.h:908-943 | the four words are header, form, status and up to 14 bytes of text |
| StreamText.BuildFbName | src/midi2_msg.h:947-965 | the same with the block number and up to 13 bytes |
| StreamText.StreamNumbers | src/midi2_msg.h:908-965 | all four words of a text packet as numbers |
| StreamText.Bounded | src/midi2_proc.c:380-381 | the length of the C string, at most max |
| StreamText.SendText | src/midi2_proc.c:376-408 | for statuses 3 and 4: the wire grows by the accepted beginning of the packets of 14 bytes of the first 98 bytes |
| StreamText.PackFbName | src/midi2_proc.c:342-354 | the hand-packed words are those of midi2_msg_stream_fb_name |
| StreamText.SendFbName | src/midi2_proc.c:324-358 | for status 0x12: the wire grows by the accepted beginning of the packets of 13 bytes of the first 91 bytes |
| StreamText.DispatchText | src/midi2_dispatch.c:474-515 | status, form, block number and text of a packet, without trailing zeroes in the last packet |
| StreamText.DispatchStream | src/midi2_dispatch.c:432-515 | which status has which text |
| StreamText.DispatchPacket | src/midi2_dispatch.c:432-515 | a built packet of status 3, 4 or 0x12 is delivered with its status, form, block number and text |
| StreamText.TextRoundTrip | src/midi2_proc.c:303-398 | joining what the dispatcher delivers gives the name as far as packets got through, all of its first 98 (91) bytes if all did; every packet is delivered with the status and block of the name; at most seven packets, Complete alone or Start, Continues and End |
| CiMessage.Read14Back | src/midi2_ci_msg.h:219-225 | reading a written 14-bit field gives it back |
| CiMessage.ReadMuidBack | src/midi2_ci_msg.h:151-164 | reading a written MUID gives its low 28 bits back |
| CiMessage.HeaderBack | src/midi2_ci_msg.h:180-210 | parsing a built header gives every field back, the MUIDs as their low 28 bits, whatever follows it |
| CiMessage.BuildPeData | src/midi2_ci_msg.h:685-705 | the buffer holds the frame, and the returned length is its length |
| CiMessage.DispatchPeData | src/midi2_ci_dispatch.c:58-83 | the callback's fields, also for frames cut short anywhere |
| CiMessage.PeRoundTrip | src/midi2_ci_dispatch.c:58-83 | parsing a built PE frame gives header, request id, PE header, chunk numbers and body back |
| WireFormat.PeCutShort | src/midi2_ci_dispatch.c:58-83 | of a PE frame cut off after any number of bytes: each field is read if it is there, each block if all of it is, and everything behind is 0 or NULL |
| CiMessage.PutProfiles | src/midi2_ci_msg.h:496-500 | the profiles follow each other in the buffer, five bytes each |
| CiMessage.BuildProfileReply | src/midi2_ci_msg.h:490-502 | the buffer holds the frame of both lists |
| CiMessage.ProfileReplyRoundTrip | src/midi2_ci_dispatch.c:185-200 | for every two lists whose frame fits 65535 bytes, parsing gives both counts and the bytes of both lists back |
| CiMessage.ListsInFrame | src/midi2_ci_dispatch.c:185-200 | of an accepted frame the claimed enabled list lies within it if and only if it has at most 13107 profiles, the disabled list if and only if the frame is long enough |
| CiMessage.EnabledOverrun | src/midi2_ci_dispatch.c:188-189 | a 21-byte frame claiming 65540 bytes of enabled profiles is accepted |
| CiMessage.DisabledUnchecked | src/midi2_ci_dispatch.c:192-197 | any number of disabled profiles is accepted with none in the frame |
| Json.CountArray | src/midi2_ci.c:547-574 | the index loop computes ArrayCount, for every body on which the 16-bit index does not wrap |
| Json.ScanValue | src/midi2_ci.c:560-571 | a value of any nesting leaves the scanner's depth, string flag and count as they were |
| Json.ScanElements | src/midi2_ci.c:560-571 | of elements side by side only their own commas are counted, and only at depth 0 |
| Json.CountMatchesPrint | src/midi2_ci.c:547-574 | on the text of any JSON value the scanner reports an array exactly when it is one, and then its number of top-level elements |
| Json.Characters | src/midi2_ci.c:547-574 | white space and the characters with a meaning, as numbers |
| Json.PrintedInBytes | src/midi2_ci.c:547-574 | an array and an object byte by byte |
| PropertyExchange.FindResource | src/midi2_ci.c:473-494 | the index loop finds the quoted string behind the first key |
| PropertyExchange.ResourceNamed | src/midi2_ci.c:473-494 | any text without the key, the key, any bytes 0x3A and 0x20, a quote-free string and any text: the string is the resource |
| PropertyExchange.ResourceMissing | src/midi2_ci.c:475-480 | a header without the key names no resource |
| PropertyExchange.ResourceUnquoted | src/midi2_ci.c:481-494 | nor does one with anything but a quote behind key and separators; a string never closed goes up to the end |
| PropertyExchange.InquiryNames | src/midi2_ci.c:473-494 | the header of a plain inquiry names its resource if and only if the name has no quote |
| PropertyExchange.ResourceQuoteFree | src/midi2_ci.c:486-490 | no header names a resource with a quote in it |
| PropertyExchange.EntryText | src/midi2_ci.c:518-537 | the bytes written for an entry are the JSON text of its object |
| PropertyExchange.FittingMaximal | src/midi2_ci.c:526-533 | a number of entries fits exactly if it is at most the number listed |
| PropertyExchange.ResourceListBody | src/midi2_ci.c:511-541 | the list is a closed array within max bytes, the longest prefix of the named properties that fits, and the scanner counts its entries |
| PeResponder.BuildResourceList | src/midi2_ci.c:516-541 | the buffer holds the JSON text of that longest prefix; nothing below two bytes |
| PeResponder.SplitDigits | src/midi2_ci.c:590-592 | the digit buffer holds the decimal digits backwards, in at most five places |
| PeResponder.PutDecimal | src/midi2_ci.c:589-594 | the decimal digits of the count follow in the buffer |
| PeResponder.DecimalBack | src/midi2_ci.c:589-594 | reading the written digits gives the count back; there are no leading zeroes |
| PeResponder.PutOkHeader | src/midi2_ci.c:581-598 | the success header, with totalCount exactly for lists, within 40 bytes |
| PeResponder.Lookup | src/midi2_ci.c:497-509 | the index of the first property of that name |
| PeResponder.FindProperty | src/midi2_ci.c:497-509 | the loop finds that index |
| PeResponder.CountBound | src/midi2_ci.c:547-574 | a body has at most one element more than bytes, so the 16-bit count does not wrap |
| PeResponder.AnswerList | src/midi2_ci.c:627-639 | the header and body of a ResourceList reply, within the reply buffer |
| PeResponder.AnswerValue | src/midi2_ci.c:653-672 | up to 448 bytes of the value, counted as sent, within the reply buffer |
| PeResponder.HandleGet | src/midi2_ci.c:607-683 | the reply frame: registered value, else built-in list, else 404; none below 16 bytes |
| PeResponder.HandleSet | src/midi2_ci.c:692-750 | the reply frame and the setter call made, for any inbound frame |
| PeResponder.UpToNul | src/midi2_ci.c:729-731 | what a setter sees of its NUL-terminated buffer |
| Responder.FirstUsable | src/midi2_ci.c:135-144 | the first draw that is not reserved |
| Responder.UsableWhen | src/midi2_ci.c:135-146 | the new MUID is usable if and only if one of the next nine draws is not reserved |
| Responder.RedrawNumbers | src/midi2_ci.c:131-148 | the new MUID is the low 28 bits of the first of nine numbers for which these are neither 0 nor 0xFFFFFFF, and 0x12345678 if there is none |
| Responder.FallbackIsTooWide | src/midi2_ci.c:145 | nine zeroes give 0x12345678: frames then carry another source, and no received source ever equals it |
| Responder.HandleSource | src/midi2_ci.c:394-452 | every reply to any message is a CI frame from the current MUID, to whoever sent the message or to all |
| Replies.NotCi | src/midi2_ci.c:930-933 | what is not MIDI-CI changes nothing and is not handled |
| Replies.ToDiscovery | src/midi2_ci.c:394-408 | the reply to 0x70 byte by byte; none, and not handled, without a manufacturer |
| Replies.Announcements | src/midi2_ci.c:766-775 | Invalidate and Discovery byte by byte, both to all |
| Replies.ToProfileInquiry | src/midi2_ci.c:413-427 | the reply to 0x20: the number of profiles, all of them, none disabled |
| Replies.ToSetProfile | src/midi2_ci.c:863-891 | 0x22 and 0x23: enabled report to all with the channels of an On of 20 bytes, else 0, for a listed profile; NAK for another; nothing below 18 bytes |
| Replies.ToCapability | src/midi2_ci.c:437-452 | the replies to 0x30 and 0x40 byte by byte |
| Replies.ToReport | src/midi2_ci.c:902-925 | 0x42: an empty report and its end; NAK for devices 1 to 15; nothing below 18 bytes |
| Replies.ToShortPe | src/midi2_ci.c:607-612 | no answer to a Get or Set below 16 bytes |
| Replies.ToUnknown | src/midi2_ci.c:980-990 | any other sub-id: NAK byte by byte if asked for, else not handled |
| MuidLifecycle.AfterMessage | src/midi2_ci.c:930-955 | the state after any message: one or two redraws for a collision or an Invalidate naming us, else unchanged |
| MuidLifecycle.DrawsIff | src/midi2_ci.c:777-804 | by the bytes of any message: numbers are drawn if and only if there is a generator and a MIDI-CI message has our MUID as source, or is a 0x7E of at least 17 bytes that names it; else the MUID stays |
| MuidLifecycle.InvalidateIgnored | src/midi2_ci.c:777-785 | an Invalidate that names somebody else, or is too short, or without a generator: the MUID is kept and nothing is sent |
| MuidLifecycle.InvalidateHonoured | src/midi2_ci.c:777-785 | one from another that names us: one redraw, and a Discovery from the new MUID to all if there is a sink |
| MuidLifecycle.CollisionUnannounced | src/midi2_ci.c:794-807 | without auto-invalidate a collision sends nothing of its own, and the message is answered as if the MUID drawn had been ours all along |
| MuidLifecycle.SilentWithoutSink | src/midi2_ci.c:328-333 | without a sink nothing is sent |
| MuidLifecycle.MuidChangesIff | src/midi2_ci.c:777-804 | a message changes the MUID if and only if it makes us redraw and the first of the next nine draws that is not reserved, if any, is another than the old one |
| MuidLifecycle.RedrawMayKeep | src/midi2_ci.c:794-807 | a collision that keeps the MUID, and broadcasts an Invalidate of it sent from it |
| MuidLifecycle.UsableNextIff | src/midi2_ci.c:777-804 | whatever message comes next leaves the MUID usable, if and only if the next two redraws do |
| MuidLifecycle.FramesCarryMuid | src/midi2_ci.c:930-991 | the frames of the collision check carry the MUID it leaves, all others the final one |
| MuidLifecycle.CollisionAnnounced | src/midi2_ci.c:794-807 | a collision writes Invalidate(old) then Discovery, both broadcast from the MUID drawn, before any reply |
| MuidLifecycle.MuidStaysUsable | src/midi2_ci.c:131-148 | over all runs of messages the MUID stays in 1..0x0FFFFFFE if and only if every redraw from now on finds a usable one |
| MuidLifecycle.NeverMadeIfFair | src/midi2_ci.c:131-148 | for a fair generator, no redraw makes a MUID if and only if no draw does |
| MuidLifecycle.ReplacedMuidIsSilent | src/midi2_ci.c:794-807 | once a message makes us redraw, the MUID held till then is the source of no frame, in answer to it or to any messages after it, if and only if no redraw that can be reached and seen makes it again |
| ResponderState.WireSnoc | src/midi2_proc.c:252-289 | one send more adds its accepted packets to the wire |
| ResponderState.State.constructor | src/midi2_ci.c:56-81 | the MUID is the seed's low 28 bits, usable exactly if they are not reserved |
| ResponderState.State.CiSend | src/midi2_ci.c:328-333 | the frame is logged and its packets offered to the sink, if there is one |
| ResponderState.State.DrawMuid | src/midi2_ci.c:131-148 | MUID and number of draws after the loop, with and without a generator |
| ResponderState.State.CheckCollision | src/midi2_ci.c:794-807 | MUID and frames after the collision check |
| ResponderState.State.HandleInvalidate | src/midi2_ci.c:777-785 | MUID and frames after an Invalidate |
| ResponderState.State.HandleProfileInquiry | src/midi2_ci.c:413-427 | one reply listing all profiles, from a 256-byte buffer |
| ResponderState.State.ProfileListed | src/midi2_ci.c:854-861 | true exactly if one of the profiles has that id |
| ResponderState.State.HandleSetProfile | src/midi2_ci.c:863-891 | enabled report for a listed profile, NAK for another, nothing for a short message |
| ResponderState.State.HandleReport | src/midi2_ci.c:902-925 | reply and end, or NAK for channels 1 to 15 |
| ResponderState.State.HandlePe | src/midi2_ci.c:607-750 | the reply sent and the setter calls made |
| ResponderState.State.DispatchMessage | src/midi2_ci.c:939-990 | state, frames, result and setter calls of the switch |
| ResponderState.State.ProcessSysex | src/midi2_ci.c:930-991 | the object after any message is Responder.Process of the object before; frames, on the group the message came from, and setter calls are appended to the logs |
| ResponderState.PeerReceives | src/midi2_ci.c:328-333 | a receiver of the responder's link, in any state, gets exactly the frames of which the sink took every packet, in order |
| Subscribers.SameName | src/midi2_ci.c:265 | strncmp over 36 characters compares the names' first 36 characters |
| Subscribers.NamesKept | src/midi2_ci.c:298-301 | 36 characters of a name are kept, and two names are the same if they are until then |
| Subscribers.ContentsSize | src/midi2_ci.c:281-323 | with distinct slots, the set has as many pairs as there are slots in use |
| Subscribers.RecipientsOnce | src/midi2_ci.c:359-361 | the subscribers notified are those of the name in the set, each once |
| Subscribers.RecipientsInOrder | src/midi2_ci.c:359-361 | in the order of their slots |
| Subscribers.NotifyParses | src/midi2_ci.c:363-387 | the i-th notify (0x3F) parses as addressed to the low 28 bits of the i-th subscriber, and its header names the resource if and only if the name has no quote |
| Subscribers.Registry.constructor | src/midi2_ci.c:61-76 | no properties, no subscribers, with or without storage for them |
| Subscribers.Registry.FindSubscriberIdx | src/midi2_ci.c:258-269 | an index is found exactly if the pair is in the set, and is its slot |
| Subscribers.Registry.Add | src/midi2_ci.c:281-306 | the set gains the pair exactly on success; FULL without storage; NOT_FOUND for unknown or unsubscribable names; else FULL only for a new pair with every slot in use |
| Subscribers.Registry.Remove | src/midi2_ci.c:308-319 | the set loses the pair; NOT_FOUND exactly if it was not there |
| Subscribers.Registry.SetSubscribable | src/midi2_ci.c:271-279 | the flag of the first property of that name; subscribers stay |
| Subscribers.Registry.RemoveProperty | src/midi2_ci.c:211-227 | the first property of that name is taken out and the others keep their order; subscribers stay |
| Subscribers.Registry.NotifyChanged | src/midi2_ci.c:344-389 | one frame per recipient, in slot order, on group 0; NOT_FOUND for an unregistered name |
| Outcomes.Texts | src/midi2_ci.c:459-461 | the reply headers byte by byte |
| Outcomes.NameTexts | src/midi2_ci.c:473-476 | the built-in resource, the list entry and the key byte by byte |
| Outcomes.GetOutcome | src/midi2_ci.c:607-683 | said of the properties alone: the first 448 bytes of the value of the first property of the name, with totalCount exactly for arrays; 404 if it has none or there is no such property; for an unregistered ResourceList, the first names, as many as fit 448 bytes |
| Outcomes.GetJson | src/midi2_ci.c:644-672 | a value that is JSON text of up to 448 bytes is sent whole, with the number of its elements if it is an array |
| Outcomes.SetOutcome | src/midi2_ci.c:692-750 | said of the properties alone: the setter of the first property of the name is called once, and 200 or 400 as it answers; else nothing is called, 404 |
| Outcomes.Unnamed | src/midi2_ci.c:676-683 | an inquiry that names no resource is answered 404 |
| Outcomes.CutShort | src/midi2_ci.c:692-731 | the resource and the body the handlers find in a frame cut off after any number of bytes |
| Outcomes.FirstNul | src/midi2_ci.c:729-733 | a setter sees what is in front of the first NUL |
| Transaction.ListOutcome | src/midi2_ci.c:627-639 | the built-in reply tells exactly how many resources it lists: as many of the named ones as fit 448 bytes |
| Transaction.AnswerFits | src/midi2_ci.c:463-468 | every answer to a Get is 7-bit, has a header and fits the 512-byte reply |
| Transaction.InquiryAsSeen | src/midi2_ci.c:614-621 | the handlers find sender, request id, resource and body of a built inquiry |
| Transaction.GetTransaction | src/midi2_ci.c:607-683 | a Get (0x34) sent as SysEx7, reassembled from any state, answered, sent back and parsed: one reply (0x35), to the sender, with its request id, holding what Outcomes.GetOutcome says: the first matching value, the built-in list or 404 |
| Transaction.SetTransaction | src/midi2_ci.c:692-750 | a Set (0x36) calls the first matching setter once, with the body up to a NUL or 448 bytes, and the one reply (0x37) reports 200 or 400 as it says; without one nothing is called and the status is 404 |
| Transaction.ProfileTransaction | src/midi2_ci.c:413-427 | the reply to a Profile Inquiry parses as all profiles, enabled, none disabled, to the sender |
| Transaction.HandleFits | src/midi2_ci.c:391-452 | every reply to any SysEx message is SysEx data of at most 512 bytes, for 7-bit names, values, profiles and categories |
| Transaction.SentFits | src/midi2_ci.c:930-991 | so is everything the responder sends over any run of messages |
| SharedTransmit.StepKeeps | examples/rpi-pico-device-zephyr/src/main.c:173-218 | every step of every thread keeps mutex, run flag and log consistent |
| SharedTransmit.ReachableInv | examples/rpi-pico-device-zephyr/src/main.c:160-219 | that invariant holds in every interleaving |
| SharedTransmit.RunExclusive | examples/rpi-pico-device-zephyr/src/main.c:189-218 | in every interleaving, while the flag is set by a thread (from a START to its next COMPLETE, END or giving up, on any group) only that thread writes |
| SharedTransmit.CountOutsideCalls | examples/rpi-pico-device-zephyr/src/main.c:208-217 | with no thread inside a call, the mutex count is 1 if a run is held, else 0, and a run is held exactly if one is open |
| SharedTransmit.ReportsWritten | examples/rpi-pico-device-zephyr/src/main.c:180-218 | the number of words reported are exactly those the transport took in this call, with nobody else writing meanwhile |
| SharedTransmit.OpensAndCloses | examples/rpi-pico-device-zephyr/src/main.c:189-194 | types 3 and 5 open a run with form 1 and close it with forms 0 and 3 |
| SharedTransmit.LogWhole | examples/rpi-pico-device-zephyr/src/main.c:180-188 | in every interleaving each packet at the transport is a whole message, of the length its type has |
| SharedTransmit.GivesUp | examples/rpi-pico-device-zephyr/src/main.c:195-207 | a call gives up at the 51st refusal of a packet, or with the host not ready |
| SharedTransmit.OtherGroupLetsGo | examples/rpi-pico-device-zephyr/src/main.c:189-194 | a run in which a COMPLETE for another group lets another thread's packet into an open SysEx |
| RunProtection.FlagIsOpen | examples/rpi-pico-device-zephyr/src/main.c:189-194 | what a thread can track of its own packets tells whether the flag is set for it |
| RunProtection.KeyNumbers | examples/rpi-pico-device-zephyr/src/main.c:189-194 | a run belongs to a type, a group and, for type 5, a stream, as digits of its packets |
| RunProtection.SafeCallsOnPlan | examples/rpi-pico-device-zephyr/src/main.c:173-218 | in every interleaving, a thread whose calls are safe meets nobody while it has a run of any group or stream open, also after giving up |
| RunProtection.UnsafeExposes | examples/rpi-pico-device-zephyr/src/main.c:208-217 | for every list of calls with an unsafe one, an interleaving in which another thread writes into an open run |
| RunProtection.ProtectedIff | examples/rpi-pico-device-zephyr/src/main.c:168-172 | a thread has its runs to itself in every interleaving if and only if every one of its calls ends with no run open or with a START last |
| RunProtection.KeyRunExclusive | examples/rpi-pico-device-zephyr/src/main.c:168-172 | with safe calls, from the START of a group or stream to its own END or COMPLETE or to giving up, only that thread writes |
| RunProtection.MixingGroups | examples/rpi-pico-device-zephyr/src/main.c:189-194 | another group's COMPLETE inside a run is safe within one call, and not at the end of one |
| Pipeline.SplitIsExact | examples/rp2350-device-freertos/src/pipeline.c:59-71 | the messages put end to end are the words, each of the length its type calls for but that the last may be cut short |
| Pipeline.FirstLength | examples/rp2350-device-freertos/src/pipeline.c:59-71 | the first message has 1, 2, 3 or 4 words by its type, in numbers, or all that are left |
| Pipeline.OfferNumbers | examples/rp2350-device-freertos/src/pipeline.c:55-57 | a message is queued while fewer than 64 are, else counted as dropped |
| Pipeline.Producer.SendWords | examples/rp2350-device-freertos/src/pipeline.c:59-71 | exactly the messages of Split are offered, in order |
| Pipeline.StepConserves | examples/rp2350-device-freertos/src/pipeline.c:123-131 | every step of either task conserves messages |
| Pipeline.PipelineConserves | examples/rp2350-device-freertos/src/pipeline.c:107-134 | so does every interleaving |
| Pipeline.FromTheStart | examples/rp2350-device-freertos/src/pipeline.c:107-134 | endpoint, packet in hand and queue together are the accepted messages in order; offered = accepted + drops; offers and what is still to offer are the words and single messages asked for |
| Pipeline.EmitCatalog | examples/rp2350-device-freertos/src/pipeline.c:77-102 | after any number of rounds: consecutive entries from the given one, ended exactly at the first that leaves no run open |
| Pipeline.PlaceIs | examples/rp2350-device-freertos/src/pipeline.c:99 | the k-th entry emitted is idx + k, less the size of the catalog for each round |
| Pipeline.RunOpenIff | examples/rp2350-device-freertos/src/pipeline.c:86-99 | a run is open exactly if some SysEx7 Start was followed by no End |
| Pipeline.PassEndsIff | examples/rp2350-device-freertos/src/pipeline.c:77-102 | a pass ends if and only if its first entry opens no run or some entry of the catalog ends one |
| Pipeline.PassEndsRun | examples/rp2350-device-freertos/src/pipeline.c:73-102 | a pass that opens a SysEx7 run ends with its End |

## Left out

- USB, TinyUSB, Zephyr and FreeRTOS set-up, descriptors, timers, LEDs, scenes and logging: I/O and foreign code. Of the kernels only the contracts of the recursive mutex, the queue and the whole-packet write are used.
- One-line builders and getters, and the fixed-layout cases of `src/midi2_dispatch.c` and `src/midi2_ci_dispatch.c`: finite bit shuffles that would only add easy members.
- Endpoint Information, Profile Details, Profile Specific Data, ACK and NAK text as parsed by `src/midi2_ci_dispatch.c:92-180`: a length and a block each, as in the PE frame.
- Value scaling and the translation between MIDI 1.0 and MIDI 2.0 Channel Voice words: facts of single words.
- Mixed Data Set, Flex Data text and group remapping; the SysEx8 reassembler is modelled for the Mixed Data Set packets it also sees, its round trips only for SysEx8.
- NULL arguments, the re-entrancy flags and debug asserts: their conditions are preconditions. In particular the queued message of the converter must be drained before the next byte.
- Liveness: that a blocked thread is ever served, that a held run is ever ended.
- Names and values of 65536 bytes or more, and frames beyond 65535 bytes: their 16-bit lengths would wrap in the source.
- A property's setter or getter changing the registry during a call; the properties are those at the time of the message.
- The order of `midi2_ci_add_property_*` and profile registration calls: the registries are given as they are when a message arrives.
- SharedTransmit.RunExclusive: speaks of the one flag the code keeps; the runs of single groups and streams are the subject of RunProtection.ProtectedIff.
- Pipeline.EmitCatalog: is cut off after a given number of rounds, which may be any, because the loop of the source need not end.
