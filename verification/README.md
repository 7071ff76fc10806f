# Verified models of the Diva ISDN driver

The Linux driver for Diva ISDN cards is mostly glue between kernel and card, but five of its
files hold algorithms of their own.  This project models these five and proves what they
promise, for every input, run or reachable state.  Code that works in place is modelled in
place (classes, arrays, loops with invariants) and proved against specification functions;
the theorems are lemmas about these functions.

| files | models | of |
|---|---|---|
| `MsgQueue` | the trace ring: a queue of byte messages that wraps without splitting a message, and the evict-oldest loop | `kernel/debug.c` |
| `DtmfGoertzel`, `DtmfPower`, `DtmfLevel`, `DtmfDigit`, `DtmfFrames`, `DtmfTiming`, `DtmfReceiver`, `DtmfBound`, `DtmfExact` | the DTMF receiver: fixed-point filters, power, levels, digit decision, overlapped frames, digit timing and ring, the chunked resumable block function, and the proof that no arithmetic of a frame overflows | `kernel/capidtmf.c` |
| `CfgVle`, `CfgTree`, `CfgWalk`, `CfgSection`, `CfgTranslate`, `CfgMeaning`, `CfgParts`, `CfgBits`, `CfgPcInit`, `CfgReader` | the configuration storage: numbers in the format of unsigned LEB128 (section 7.6 of DWARF Version 4), trees of sections, walkers, the translator to one memory image, the two-run text reader | `kernel/diva_cfg_lib.c` |
| `IdiEntity`, `IdiTransmit`, `IdiReceive`, `IdiEcho`, `IdiCompletion`, `IdiTables`, `IdiPass`, `IdiRequests`, `IdiAdapter`, `IdiReturn` | the IDI engine: fragments, reassembly, return code counting, Id and flow control tables | `kernel/di.c`, `kernel/io.c` |
| `CapiMessage`, `CapiSendf`, `CapiRead`, `CapiBuffers`, `CapiInterconnect` | the CAPI helpers: message formatter, transmit buffer lists, line-interconnect table | `kernel/capifunc.c` |
| `Machine` | integer widths, little-endian values, memory that is overwritten in part | |

How the main results fit together:

* Trace ring.  The layout of a queue is a value (`Layout`) with the FIFO it stands for; the class
  keeps header and data bytes of every message where the layout says.
* Receiver.  `RecvBlock` equals `Stream`, sample by sample; `BlockSplitInvisible`,
  `ReceiverIsSimple` (from `OverlapRefinesFrames` and `ReceiverFollowsFrames`) and the timing lemmas
  are about `Stream` and its parts; `GoertzelLoop`, `FrameStaysInRange` and `FrameLevelsAreExact`
  close the gap to unbounded arithmetic.
* Configuration.  `Encode` is the one definition of the binary form.  The reader produces it, the
  walkers read it, the translator maps `Section(cs)` to `Translated(cs)`, and
  `TranslationKeepsMeaning` says what that instance means for the adapter.
* IDI.  `PrOut` is `Pass` on values, about which `RequestsAre`, `PassKeepsData`, `EntityAfter` and
  `PassAwaits` speak; `OutcomeOf` is what `IdiReturn` describes bit by bit;
  `Echo` composes the fragment and indication code; `ReturnCode` and `Send` change `More` and the
  tables by the functions the run theorems are about.
* CAPI.  `Sendf` puts the bytes of the trees that the format describes into the message;
  the stack in the length bytes (`Join`) refines a stack of its own (`Frames`), and an independent
  reader (`CapiRead`) gets every argument back.

Conventions.  C integers are subset types of `int`, and wrap-around is written out.  A byte pointer
into read-only storage is an offset, null is `None`.  A ghost parameter names the tree, message or
data that a pointer stands for.  What an application answers in a callback, what a card reports and
what the clock says are parameters.  Every region under a lock is one step.

Where code and comments disagree the models follow the code:

* `kernel/diva_cfg_lib.c:1176-1178` promises the number of bytes read for every string that fits;
  a binary string with an empty last field fails in a buffer it exactly fills
  (`CfgReader.ReadBs`).
* `kernel/debug.c:143-149` describes the flag as separate from the size; sizes from 0x8000 on lose
  that bit (`MsgQueue.HeaderKeepsSizeIff`), so the queue is modelled for sizes below it.
* `kernel/capidtmf.c:465-478` restarts only one of the two frame counters
  (`DtmfReceiver.EnableIsFreshIff` gives the exact conditions for a consistent and for a fresh state).

`dafny verify dfyconfig.toml` checks the project.

## Model

| member | source | states |
|---|---|---|
| MsgQueue.HeaderKeepsSizeIff | kernel/debug.c:124-129 | Setting the incomplete flag in the size field and clearing it again gives the size back exactly when the size is below 0x8000, where the flag bit is |
| MsgQueue.AllocIffGap | kernel/debug.c:154-174 | An allocation is possible exactly when some contiguous free run of the needed length exists in the area in use (while the queue is wrapped, the bytes behind the wrap position do not count): the queue may wrap, a message never does |
| MsgQueue.WrapsIffNoGapBehind | kernel/debug.c:161-170 | The queue wraps exactly when the message does not fit behind Tail, and then it fits before Head |
| MsgQueue.RoomInBuffer | kernel/debug.c:154-182 | The place an allocation chooses lies inside the buffer, and an empty queue has Head = Tail = Base |
| MsgQueue.AllocAppends | kernel/debug.c:142-187 | Allocating keeps the layout (messages tile [Head,Tail), or [Head,Wrap) and then [Base,Tail)) and appends the new message to the FIFO |
| MsgQueue.FreeRemovesOldest | kernel/debug.c:189-205 | Freeing keeps the layout and removes the first message of the FIFO; the last message of a wrapped part un-wraps the queue, and the queue that becomes empty starts again at Base |
| MsgQueue.MsgQueue.constructor | kernel/debug.c:134-140 | A new queue is valid and empty |
| MsgQueue.MsgQueue.Alloc | kernel/debug.c:142-187 | In place in the byte buffer: fails exactly when there is no gap; otherwise the message is appended as incomplete, every other message keeps its bytes, Count grows by the size |
| MsgQueue.MsgQueue.Free | kernel/debug.c:189-205 | In place: the contents lose exactly their first message, Count its size |
| MsgQueue.MsgQueue.Peek | kernel/debug.c:207-221 | Gives the place and the size of the first message, or nothing exactly when the queue is empty or its first message is incomplete |
| MsgQueue.MsgQueue.Fill | kernel/debug.c:999-1008 | The owner of an allocated message fills in its bytes; nothing else in the queue changes |
| MsgQueue.MsgQueue.Complete | kernel/debug.c:129-129 | Clears the flag of one message: it is complete afterwards, with the same bytes and size, and all others are as before |
| MsgQueue.MsgInside | kernel/debug.c:134-221 | Every queued message lies, header and data, inside the buffer |
| MsgQueue.EvictsShortestPrefix | kernel/debug.c:986-996 | The evict-and-retry loop drops the shortest prefix of the queue after which the allocation succeeds, and it succeeds exactly when the message fits the empty queue |
| MsgQueue.LogKeepsConsecutive | kernel/debug.c:996-1000 | Dropping oldest messages and appending the next keeps the queued sequence numbers consecutive modulo 2^32 |
| MsgQueue.TraceLog.EvictUntilRoom | kernel/debug.c:1388-1396 | The loop itself: it ends, returns a place exactly when the size fits an empty queue, and leaves the queue without exactly that shortest prefix |
| MsgQueue.TraceLog.Log | kernel/debug.c:1383-1410 | A whole log operation: the shortest prefix goes, the new message with the next sequence number is the last, and the numbers stay consecutive |
| MsgQueue.TraceLog.GetMessage | kernel/debug.c:836-853 | Gives the first message, which stays in the queue, or nothing exactly when a message is already being read or the queue is empty |
| MsgQueue.TraceLog.AckMessage | kernel/debug.c:859-869 | Takes the message being read out of the queue, or leaves it there, and ends the reading; without one nothing changes |
| DtmfGoertzel.SplitProductIsFloor | kernel/capidtmf.c:195-214 | The split 16 by 32 bit product of the loop is floor(c * q1 / 2^16) modulo 2^32, for every int32 q1 and every even coefficient of the range, and the partial dword product does not overflow |
| DtmfGoertzel.StepIsRecurrence | kernel/capidtmf.c:195-214 | One step is the Goertzel recurrence sample - q2 + floor(c * q1 / 2^16), modulo 2^32 |
| DtmfGoertzel.FundamentalInRange | kernel/capidtmf.c:220-242 | The fundamental coefficient stays positive and even through a whole frame of 205 samples |
| DtmfGoertzel.LoopInterchange | kernel/capidtmf.c:189-244 | Running one frequency at a time over all samples is the same as running all frequencies sample by sample |
| DtmfGoertzel.BankFoldAppend | kernel/capidtmf.c:184-245 | A fold over a frame can be cut anywhere: folding s and then t is folding s followed by t |
| DtmfGoertzel.GoertzelLoop | kernel/capidtmf.c:184-245 | The loop over the two-part buffer leaves in it, and in the last coefficient, exactly the bank that the sample-by-sample fold gives |
| DtmfPower.PowerExact | kernel/capidtmf.c:254-317 | For q1 and q2 of absolute value below 2^30 the two result words are exactly d*q2 + q1^2 + q2^2 with d = floor(-c*q1/2^16), built from 16-bit limbs without loss |
| DtmfPower.PowerRange | kernel/capidtmf.c:254-317 | That value is never negative and below 2^63, so the unsigned reading of its high word is right |
| DtmfLevel.LevelIs | kernel/capidtmf.c:656-677 | The level of a 64-bit power, for every power the result can be, is three times its number of bits plus the third of the octave its top bits are in; the byte loses nothing |
| DtmfLevel.LevelsAreMonotone | kernel/capidtmf.c:656-677 | A stronger tone never has a lower level |
| DtmfDigit.PeakMeaning | kernel/capidtmf.c:680-697 | The peak search gives the first strongest frequency of a group above the sensitivity, or none exactly when no one is above it |
| DtmfDigit.CountsExactly | kernel/capidtmf.c:704-712 | The counter n is 2 exactly when the two peaks are the only frequencies that are too strong |
| DtmfDigit.DigitMeaning | kernel/capidtmf.c:678-714 | A frame means a digit exactly when its row and its column tone are the first strongest of their groups, both above 83 and neither more than 10 above the other, the digit is theirs, and no third frequency is within its guard distance of a peak |
| DtmfDigit.LikelyMeaning | kernel/capidtmf.c:678-703 | Before the guard frequencies are looked at: the likely digit is that of the two tones, and there is none exactly when no two tones make a digit |
| DtmfDigit.TooStrongMeaning | kernel/capidtmf.c:705-712 | The 16-bit comparison, with the out-of-range guard values, finds exactly the frequencies within their guard distance of a peak that they are measured against |
| DtmfDigit.Decide | kernel/capidtmf.c:678-714 | The loops over the levels compute that digit and the likely digit |
| DtmfFrames.FramedStep | kernel/capidtmf.c:565-651 | The interleaved form keeps, sample by sample, the description of what each of the two banks has accumulated; in the middle of a frame cycle_counter0 is cycle_counter - 103 |
| DtmfFrames.WindowedIs | kernel/capidtmf.c:634-642 | A windowed sample is the expanded one times its weight, in units of 2^-15 and rounded down; only the least value times itself wraps around |
| DtmfFrames.OverlapRefinesFrames | kernel/capidtmf.c:561-655 | For every stream after enabling from idle, the finished frames are exactly the folds from zero of samples 103i to 103i+204 with window weights 0 to 204, and there are as many as the stream holds |
| DtmfTiming.DecisionKeepsTiming | kernel/capidtmf.c:716-764 | Every decision keeps the timing invariant: on_time 0 implies off_time 0 (so the two branches that count off_time down are never taken), on_time is 0xffff or below the minimum, no counter wraps |
| DtmfTiming.MarkersPair | kernel/capidtmf.c:716-764 | Over any run of decisions every end marker 0x7f directly follows the digit it ends, or the digit pending at enable |
| DtmfTiming.SteadyDigit | kernel/capidtmf.c:743-762 | A steady digit is reported exactly once, at exactly the minimum duration |
| DtmfTiming.SteadyGap | kernel/capidtmf.c:716-735 | Steady silence after a reported digit gives exactly one end marker, at exactly the minimum gap (one later while the digit is still the likely one) |
| DtmfTiming.SilenceCounts | kernel/capidtmf.c:716-735 | Any silence behind a digit, whatever the likely digits: it is counted while it is too short to end the digit; then it ends the digit, with one end marker if the digit was reported |
| DtmfTiming.DropoutIsBridged | kernel/capidtmf.c:743-762 | A dropout too short to end a digit is bridged: the off time counts towards the duration of the digit when it comes back, and a reported digit is not reported again; another digit starts from one |
| DtmfTiming.IdleSilence | kernel/capidtmf.c:716-735 | Silence behind silence changes nothing |
| DtmfTiming.DigitRing.IndicateDigit | kernel/capidtmf.c:522-541 | Appends to a FIFO of capacity 31; a digit that finds it full is dropped; the indication bits differ exactly when the ring is not empty |
| DtmfTiming.DigitRing.Indication | kernel/capidtmf.c:498-519 | Returns all queued digits in order and empties the ring; on an empty ring the acknowledge bit is unchanged |
| DtmfTiming.DurationsAre | kernel/capidtmf.c:441-464 | The two durations are the demanded time less two hops, in hops, and never below the minimum |
| DtmfTiming.HoldsIff | kernel/capidtmf.c:441-464 | A time of n samples holds m successive whole frames, wherever it begins, exactly when m is at most (n - 204) / 103 |
| DtmfTiming.GapIsHeldIff | kernel/capidtmf.c:453-464 | A silence of the demanded length holds the minimum gap in whole frames, wherever it begins, exactly when at least 52 ms are demanded |
| DtmfTiming.DigitIsHeldIff | kernel/capidtmf.c:441-452 | A digit of the demanded length holds its minimum in whole frames, wherever it begins, exactly when at least 39 ms are demanded and rounding has not added a frame |
| DtmfTiming.Enabled | kernel/capidtmf.c:437-479 | Enabling starts in a valid timing state: each duration is the one demanded for it, a pending digit counts as reported with its value, and otherwise nothing is counted |
| DtmfTiming.DigitTimer.Time | kernel/capidtmf.c:716-764 | The timing code does, on the counters and the ring, exactly what one decision means |
| DtmfReceiver.BlockSplitInvisible | kernel/capidtmf.c:546-770 | Cutting a stream into blocks does not change frames, timing or queued digits |
| DtmfReceiver.ReceiverFollowsFrames | kernel/capidtmf.c:546-770 | Timing and digit queue after any stream are those of the run of decisions of its frames |
| DtmfReceiver.ReceiverIsSimple | kernel/capidtmf.c:546-770 | From idle, timing and digits after any stream are those of the decisions of samples 103i to 103i+204, each folded from zero by itself |
| DtmfReceiver.RingKeepsFirst | kernel/capidtmf.c:522-541 | Until it is read the ring keeps the first 31 digits reported, in order |
| DtmfExact.FrameStaysInRange | kernel/capidtmf.c:184-245 | For every stream all sixteen accumulators of a frame stay below 2^30 in absolute value, the moving fundamental included, so no step wraps around |
| DtmfExact.FrameLevelsAreExact | kernel/capidtmf.c:651-677 | For every frame of every stream the level of each frequency is that of its exact power in unbounded integers |
| DtmfExact.FrameDecisionMeaning | kernel/capidtmf.c:651-714 | For every frame of samples the decision is a digit exactly when two tones make it, alone, and the likely digit exactly when two tones make it, on the levels of the exact powers |
| DtmfReceiver.ChunkIsStream | kernel/capidtmf.c:593-649 | A chunk of at most 32 samples, with window and coefficient set up once per chunk, does what the samples do one by one |
| DtmfReceiver.FilterBanks.RunChunk | kernel/capidtmf.c:598-649 | The two accumulators, their windows and fundamental coefficients are advanced in place as by the samples one by one; window indices stay within 0 to 204 |
| DtmfReceiver.FilterBanks.BeginFrame | kernel/capidtmf.c:567-592 | At a frame boundary the second accumulator becomes the first, or both are cleared when there is none |
| DtmfReceiver.FilterBanks.Conclude | kernel/capidtmf.c:651-714 | At the end of a frame the decision is the one of the accumulated bank |
| DtmfReceiver.Receiver.Enable | kernel/capidtmf.c:437-480 | Enabling resets cycle_counter but not cycle_counter0; the receiver is consistent afterwards exactly when the frame in progress stood at sample 0 or 103 |
| DtmfFrames.RestartIsConsistentIff | kernel/capidtmf.c:465-479 | It stands there after n samples from idle exactly when n is a multiple of 103, or one less and at least 205; so after 50 samples enabling again breaks the counters |
| DtmfFrames.RestartIsFreshIff | kernel/capidtmf.c:465-479 | Nothing of an earlier frame is kept in the second accumulator exactly when n is a multiple of 103 |
| DtmfReceiver.EnableIsFreshIff | kernel/capidtmf.c:437-480 | After enabling an active receiver again, n samples from idle: the state is consistent for these n; of them, every later stream is decided by its own samples alone exactly when n is a multiple of 103, and then timing and digits are those of the simple receiver |
| DtmfReceiver.EnableAfterOneFrame | kernel/capidtmf.c:437-480 | The witness of the other side: enabled again after 205 samples, the receiver keeps samples 103 to 204 and decides a frame after 103 samples, when the simple one decides none |
| DtmfReceiver.Receiver.Disable | kernel/capidtmf.c:483-495 | Disabling leaves the receiver idle, ready to start a fresh frame |
| DtmfReceiver.Receiver.RecvBlock | kernel/capidtmf.c:546-770 | The whole receiver, chunked and double-buffered and resumable, does to its state exactly what the samples of the block do one after the other |
| CfgVle.VleRoundTrip | kernel/diva_cfg_lib.c:338-350 | Decoding at any place gives back the encoded value and uses exactly the bytes of the encoding, whatever follows |
| CfgVle.VleInjective | kernel/diva_cfg_lib.c:1360-1383 | Encodings are unique and none is a prefix of another |
| CfgVle.VleBytes | kernel/diva_cfg_lib.c:1360-1383 | Byte k of an encoding holds bits 7k to 7k+6 of the value and says whether more bytes follow; there are no more bytes than the value needs |
| CfgVle.VleToDword | kernel/diva_cfg_lib.c:338-350 | The decoding loop returns value (modulo 2^32) and length of the number at its argument |
| CfgVle.DwordToVle | kernel/diva_cfg_lib.c:1360-1383 | Writes the encoding and nothing else, or only counts it; 0 exactly when it does not fit |
| CfgTree.EncodeInjective | kernel/diva_cfg_lib.c:985-1118 | The binary form determines the tree: no two well-formed elements share one, and none is a prefix of another |
| CfgWalk.SkipElement | kernel/diva_cfg_lib.c:1387-1460 | The skip procedures return exactly the length of the element |
| CfgWalk.GetSectionElement | kernel/diva_cfg_lib.c:813-847 | Finds exactly the first direct child with the identifier, or none, without reading past the section |
| CfgWalk.GetNextCfgSection | kernel/diva_cfg_lib.c:1516-1569 | From one position of the walk gives exactly the next direct child that is a section, or none at the end |
| CfgWalk.GetSectionType | kernel/diva_cfg_lib.c:1470-1484 | The type of a section, from its children |
| CfgWalk.WalkVisitsItems | kernel/diva_cfg_lib.c:1576-1591 | Walking from item to item visits exactly the configuration items of an instance, in order, and then stops |
| CfgWalk.GetNextItem | kernel/diva_cfg_lib.c:1576-1591 | The item walker moves to exactly the next item |
| CfgSection.ReadNumber | kernel/diva_cfg_lib.c:1593-1617 | Reads the number of the first child with the identifier |
| CfgSection.ReadData | kernel/diva_cfg_lib.c:1495-1504 | Finds data and length of the first child with the identifier |
| CfgParts.TypeMeaning | kernel/diva_cfg_lib.c:1470-1484 | The type of a section is the first of PCINIT name, RAM offset, variable name, image type and binding direction, in this order, that it has as a child |
| CfgParts.ValueMeaning | kernel/diva_cfg_lib.c:1593-1625 | A number or byte string is that of the first child with the identifier |
| CfgParts.RamMeaning | kernel/diva_cfg_lib.c:1593-1625 | Offset, operation and value of a RAM section are its children 7, 8 and 9, and an operation outside 1 to 3 is none |
| CfgBits.SetBitsMeaning | kernel/diva_cfg_lib.c:1658-1665 | A bit is set afterwards exactly when it is set in the memory or in the data |
| CfgBits.ClearBitsMeaning | kernel/diva_cfg_lib.c:1667-1674 | A bit is set afterwards exactly when it is set in the memory and not in the data |
| CfgBits.RamSectionMeaning | kernel/diva_cfg_lib.c:1652-1679 | A RAM section changes no byte outside its place; inside, every bit is as the operation says |
| CfgBits.RamImageMeaning | kernel/diva_cfg_lib.c:1634-1689 | The RAM sections of an instance apply in order, each to the bits the ones before it left |
| CfgParts.RamLengthMeaning | kernel/diva_cfg_lib.c:1684-1688 | The RAM memory reaches exactly as far as the farthest section |
| CfgParts.MemoryMeaning | kernel/diva_cfg_lib.c:1932-1951 | The memory image is as long as the longer of the two parts; the PCINIT list lies from byte 224 on, over the RAM sections |
| CfgParts.ParameterMeaning | kernel/diva_cfg_lib.c:1738-1815 | Type, line and data of a parameter are children 5, 34 and 6 of its section, cut to a byte or to a length of a byte; types from 0x80 on have no data |
| CfgTranslate.ApplyOperation | kernel/diva_cfg_lib.c:1656-1679 | Write, SetBits and ClearBits change exactly the bytes of the section, as the operation says |
| CfgTranslate.WriteRamInit | kernel/diva_cfg_lib.c:1634-1689 | Applies all RAM sections in order to the memory and returns how far they reach; the only error return taken is the one for an unknown operation |
| CfgTranslate.WritePcInit | kernel/diva_cfg_lib.c:1733-1824 | Writes the encoded PCINIT list from byte 224 on and nothing else; given the measured space no error return is taken |
| CfgTranslate.CopyKept | kernel/diva_cfg_lib.c:1889-1914 | Copies exactly the sections that are neither RAM nor PCINIT, in order; its overflow return is not taken |
| CfgTranslate.GetInstanceData | kernel/diva_cfg_lib.c:1830-1854 | Finds the element that identifies the instance and its length |
| CfgTranslate.PassHead | kernel/diva_cfg_lib.c:1868-1914 | Tag, length, identity and kept sections of a pass; the unusual guard on copying the identity always holds because the image has at least 225 bytes |
| CfgTranslate.ImageInPlace | kernel/diva_cfg_lib.c:1932-1951 | The two writers, run behind the output on cleared memory, complete it to the output followed by the memory image |
| CfgTranslate.TranslatedParts | kernel/diva_cfg_lib.c:1953-1958 | The lengths the measuring pass adds up are the lengths of the parts of the output |
| CfgTranslate.Measure | kernel/diva_cfg_lib.c:1867-1966 | The first pass yields exactly the section, RAM, image and total lengths of the translated instance |
| CfgTranslate.Write | kernel/diva_cfg_lib.c:1867-1971 | The second pass ends at exactly the measured length, and what it has written is the translated instance |
| CfgTranslate.Translate | kernel/diva_cfg_lib.c:1860-1978 | The result is the reserved header followed by the binary form of the translated instance; it is null exactly when a RAM section asks for an unknown operation |
| CfgMeaning.TranslationKeepsMeaning | kernel/diva_cfg_lib.c:1856-1978 | The output is a well-formed instance with the same identity and the same kept sections; loading its RAM sections into cleared memory gives the original memory (all RAM sections in order, then the PCINIT list from byte 224), and no PCINIT section is left |
| CfgMeaning.KeptSections | kernel/diva_cfg_lib.c:1893-1912 | The copied sections are exactly the variable and image sections; bindings are dropped |
| CfgPcInit.ListIsParametersIff | kernel/diva_cfg_lib.c:1733-1824 | Reading the encoded PCINIT list back gives the parameters of the instance in order, each with its data and under its own line, exactly when no parameter has the form of the end or of a line number |
| CfgPcInit.LineTypeIsSwallowed | kernel/diva_cfg_lib.c:1733-1824 | A parameter of type 0x3c with one byte is taken for a line number: it is lost, and what follows is read under that line |
| CfgPcInit.ZeroTypeEndsTheList | kernel/diva_cfg_lib.c:1733-1824 | A parameter of type 0 ends the list for its reader; whatever is behind it is lost |
| CfgReader.ReadBs | kernel/diva_cfg_lib.c:1187-1326 | Succeeds exactly for byte strings whose fields are bytes and that fit; a binary string that ends with a comma or is empty needs one byte more than it fills; the bytes are length and data |
| CfgReader.ListMeaning | kernel/diva_cfg_lib.c:1187-1300 | A binary string has a byte for every field, zero for a missing number; a last field without a number is no byte |
| CfgReader.TrailingCommaNeedsAByte | kernel/diva_cfg_lib.c:1262-1300 | The smallest case: two bytes are measured for a string of one byte with a trailing comma, and three are needed |
| CfgReader.Reader.ReadNumber | kernel/diva_cfg_lib.c:946-972 | Measures or writes a number element, and fails exactly when it does not fit |
| CfgReader.Reader.ReadString | kernel/diva_cfg_lib.c:904-935 | Measures or writes a byte string element, and fails exactly when it does not fit |
| CfgReader.Reader.ReadTlie | kernel/diva_cfg_lib.c:985-1118 | For every tag tree of any depth, given the space: the measuring run advances the length by exactly the bytes the writing run emits, both end behind the closing tag, the bytes are the canonical encoding, and the data pointer is restored.  With too little space, in trees nested at most twice, it returns 0 or -1, and -1 exactly when the first thing that does not fit is a nested section |
| CfgReader.Reader.ReadChildren | kernel/diva_cfg_lib.c:1008-1026 | The child loop, measuring or writing, handles exactly the children of the section, in order; it succeeds exactly when they fit |
| CfgReader.AllFitIff | kernel/diva_cfg_lib.c:1008-1026 | Every child fits behind those before it exactly when all together fit, with the spare byte of the last |
| CfgReader.SmallestNestedFailure | kernel/diva_cfg_lib.c:1012-1020 | A section in a section, with one byte too few: the result is -1, which a caller takes for success |
| CfgReader.MeaningWellFormed | kernel/diva_cfg_lib.c:985-1118 | What a readable text stands for is a well-formed tree, so the walkers apply to it |
| CfgReader.FormDeterminesMeaning | kernel/diva_cfg_lib.c:985-1118 | Two texts give the same bytes exactly when they stand for the same tree |
| IdiTransmit.TakeIsFirst | kernel/di.c:124-140 | What the copying loop takes is the first part of what is left, and a full 270 bytes while buffers are left |
| IdiTransmit.Gather | kernel/di.c:124-140 | The loop over the X buffers computes that piece and the place behind it |
| IdiTransmit.FragmentsAreTheData | kernel/di.c:124-190 | For every buffer list the fragments of a request that chains concatenate to the data, each chained one has exactly 270 bytes, and the last is empty exactly when there is no data, or full fragments end the data and an empty buffer follows |
| IdiReceive.StoreFills | kernel/di.c:862-891 | Storing further bytes in the current R buffer keeps the stored data and appends them |
| IdiReceive.Scatter | kernel/di.c:862-891 | The copying loop spreads an indication over the R buffers: what is stored is what was stored before, followed by the new data; the position ends behind the list exactly when the data does not fit, or is empty and the last buffer is full; then all buffers are full and the rest is dropped |
| IdiReceive.Indicate | kernel/di.c:784-906 | Every indication of a packet: look-ahead with the answers not ready, discard, own copy or buffers; RCurrent is back at 0xff after every accepted or discarded packet; on completion the first RNum buffers hold the packet |
| IdiReceive.DeliveredIsData | kernel/di.c:895-905 | Delivered buffers, each up to its length, concatenate to the packet |
| IdiEcho.Echo | kernel/di.c:124-907 | Fragmentation and reassembly undo each other: every request, handed back fragment by fragment, leaves R buffers whose first RNum contents are the X data, for all buffer lists and all R buffers of sufficient capacity |
| IdiCompletion.OneCompletion | kernel/di.c:157-690 | Through every interleaving of the m fragments of a request and their return codes with at most 15 outstanding, the counter is the number of return codes awaited, and exactly one callback happens, on the m-th return code |
| IdiCompletion.OneCompletionIffShort | kernel/di.c:157-690 | A request of m fragments is called back exactly once, on its last return code, in every interleaving, exactly when m is at most 15 |
| IdiCompletion.NextRequest | kernel/di.c:157-690 | After the completion the entity is not busy, and its next request starts with the counter and XMOREF clear |
| IdiCompletion.RightIffFew | kernel/di.h:31-34 | The four counter bits are right through a run exactly when never more than 15 return codes are awaited |
| IdiCompletion.SixteenCompleteEarly | kernel/di.h:31-34 | For every longer request there is a run in which sixteen outstanding fragments complete it before its last fifteen return codes |
| IdiTables.IdsAreInjective | kernel/di.c:573-753 | No two Ids name one entity, and an entity that waits for its ASSIGN is not in the Id table |
| IdiTables.AssignedCoherent | kernel/di.c:740-742 | Entering an assigned Id keeps the tables coherent |
| IdiTables.RemovedCoherent | kernel/di.c:601-608 | Removing an Id clears it from both tables and keeps them coherent |
| IdiTables.RunsAreCoherent | kernel/di.c:201-753 | After every run of entries, assigns, refusals, removals, kind resets and flow control changes the tables are coherent |
| IdiPass.PassEnds | kernel/di.c:85-213 | A pass takes one queue entry a turn until the queue is empty or the request slots are used up |
| IdiPass.LiveAreRequested | kernel/di.c:98-208 | Every turn of an entity that is still there hands one request to the card, with the Id and the channel of that entity and under its request code or its chaining code, and no other turn does |
| IdiPass.PassKeepsData | kernel/di.c:98-213 | For every entity, the bytes requested in a pass followed by what it then stands before are what it stood before at first: nothing is skipped, repeated or reordered |
| IdiPass.RequestsAreFragments | kernel/di.c:98-213 | In a pass that empties the queue the requests of an entity queued once are exactly the fragments of its request, so as many as the m of the completion rule; an ASSIGN, or a request without a chaining code, is only the first of them |
| IdiRequests.RequestCodes | kernel/di.c:153-205 | In a pass that empties the queue every request of an entity queued once carries its Id and its channel; the last carries its request code, all before it the chaining code |
| IdiRequests.RequestsAre | kernel/di.c:124-205 | So these requests are, one by one, the fragments of the request with Id, channel and code; an ASSIGN is one request, of the first fragment |
| IdiRequests.EntityAfter | kernel/di.c:157-208 | After such a pass a REMOVE is pending exactly when it was or the request is one; an ASSIGN waits, with its kind and the reference of one of the slots noted, XMOREF set and XMOREP clear, and its chaining code is 9 for BLLC, 1 for NL, TASK and MAN, else 0 |
| IdiRequests.PassIsSending | kernel/di.c:157-190 | For More such a pass is the sending of as many fragments as it made requests, the last one as the final part |
| IdiRequests.PassAwaits | kernel/di.c:157-190 | After a pass with up to 15 fragments exactly that many return codes are awaited, the final part is sent and none is queued |
| IdiRequests.SkippedOnlyForStopped | kernel/di.c:173-174 | A channel comes to be skipped in a pass only for a queued entity with an Id for which the channel is under flow control |
| IdiRequests.StoppedIsSkipped | kernel/di.c:173-174 | The pass that sends the last fragment of such an entity marks its channel |
| IdiPass.SentWholeIff | kernel/di.c:124-190 | Such a pass has sent the whole data exactly when the request chains or has at most 270 bytes; what else is left is never sent |
| IdiPass.IdsGoByUremove | kernel/di.c:217-230 | An Id leaves the table in a pass only when the last entity served has an UREMOVE, and then only its own |
| IdiAdapter.Adapter.Enter | kernel/io.c:484-556 | A new request: a new entity takes the lowest free number and is refused exactly when there is none, a busy entity is ignored, the request starts at the first X byte |
| IdiAdapter.Adapter.Send | kernel/di.c:98-213 | One turn of the request loop: the fragment goes out under the chaining or the final request code, the entity is queued again exactly when it is chained, and More, assign queue, Id types, flow control skips and remove-pending flags change as the turn says |
| IdiAdapter.Adapter.PrOut | kernel/di.c:70-231 | The whole pass: requests, remaining slots, queue, entities and all tables are those of the pass on values, with the UREMOVE at its end; a turn for an entity that is gone is counted but uses no request slot |
| IdiAdapter.Adapter.Unreturned | kernel/di.c:217-230 | UREMOVE removes the Id of the last entity of the pass; on an entity without an Id it only resets the kind it asks for |
| IdiAdapter.Adapter.ReturnCode | kernel/di.c:561-753 | Every return code: the ready interrupt is counted, unknown codes change nothing; for a live Id the tables, More and the callback are exactly those of the code; an ASSIGN answer reaches the entity that waits for the reference, which is no longer busy and holds the code |
| IdiAdapter.Adapter.Known | kernel/di.c:575-690 | A return code for a live Id: the tables, flags, More, RNR and the callback after removal (but not after the first of two acknowledgements), flow control on and off, kept return codes, and plain counting |
| IdiAdapter.PlainIsCompletion | kernel/di.c:678-690 | Without flow control, removal and kept return codes these are the steps of the completion rule |
| IdiAdapter.FlowFrees | kernel/di.c:625-677 | When flow control begins, and when it ends on the channel of the request, the application is called back, nothing is awaited and the entity is free, unless that return code is to be skipped |
| IdiReturn.FlowStarts | kernel/di.c:625-635 | OK_FC always calls back; nothing is awaited and the entity is free |
| IdiReturn.KeptCallsBack | kernel/di.c:609-658 | A kept return code always calls back and counts nothing; More changes only when the code acknowledges a removal as well |
| IdiReturn.FlowEnds | kernel/di.c:659-677 | A return code behind flow control calls back unless it is the OK to be skipped; on the channel of its request the entity is free then, otherwise More stays |
| IdiReturn.CountedOutcome | kernel/di.c:609-690 | Any other return code counts one down, of one at most behind a removal; it calls back and frees the entity exactly when none is awaited, no part is queued and the final part is sent, or return codes are kept |
| IdiReturn.RemovalCompletes | kernel/di.c:607-690 | The OK for a REMOVE whose last part is sent calls back and frees the entity, however many return codes were awaited |
| IdiReturn.RemovalClears | kernel/di.c:599-608 | Behind an acknowledged REMOVE no entity holds the Id and no channel is under flow control for it; all other Ids, entities and channels keep what they had |
| IdiReturn.FlowAfter | kernel/di.c:625-677 | Without a removal only the channel of the return code changes: OK_FC puts it under flow control for the Id, any other code that is not kept ends that |
| IdiReturn.GrantedAssign | kernel/di.c:740-742 | A granted ASSIGN gives the Id to its entity, which waits no longer, and changes nothing else |
| IdiReturn.RefusedAssign | kernel/di.c:743-752 | A refused one takes the entity away, and no Id changes |
| IdiReturn.UremoveClears | kernel/di.c:217-230 | An UREMOVE takes an entity with an Id out of all tables at once; one without loses its kind |
| IdiAdapter.Adapter.Answer | kernel/di.c:694-753 | ASSIGN_OK enters the Id, every other answer frees the entity; the entity is no longer busy |
| CapiMessage.ParseIsRight | kernel/capifunc.c:265-389 | Reading a format and writing it again gives the format |
| CapiMessage.BalancedIffFormat | kernel/capifunc.c:312-318 | The formats with matching brackets are exactly those of nested structures, and each has one reading |
| CapiMessage.FramesAreTrees | kernel/capifunc.c:344-389 | Built with a separate stack, the contents of the message and of every open structure are those of the structures read so far |
| CapiSendf.OpenKeeps | kernel/capifunc.c:373-376 | At an opening bracket the distance to the enclosing length byte is kept in the byte written |
| CapiSendf.CloseKeeps | kernel/capifunc.c:377-387 | At a closing bracket the length byte gets the length of the contents, and its old value leads back to the enclosing structure |
| CapiSendf.Measure | kernel/capifunc.c:265-321 | The first run accepts exactly the formats whose brackets match, and its length is the bytes written |
| CapiSendf.JoinLength | kernel/capifunc.c:265-389 | The message built so far has, at every point, the length the first run counts |
| CapiSendf.Body | kernel/capifunc.c:344-389 | The second run fills the message with the structures, every length byte holding the length of its contents, and ends without error |
| CapiSendf.Application.Sendf | kernel/capifunc.c:247-417 | The whole call: a message exactly for a format whose brackets match, of the counted length, with header and contents; otherwise nothing is delivered and msg_lost is set; indications take consecutive numbers |
| CapiRead.MessageIsRead | kernel/capifunc.c:344-389 | A reader that takes words and dwords by place, and as many bytes as a length byte says, gets every argument of every balanced format back from the message, reduced to its width |
| CapiRead.HeaderIsRead | kernel/capifunc.c:329-342 | The header holds the counted length, application, command, number and identifier, each at its place |
| CapiBuffers.XBuffers.constructor | kernel/capifunc.c:628-643 | All buffers are free, in order |
| CapiBuffers.XBuffers.Alloc | kernel/capifunc.c:645-656 | Moves one element, wherever it is, to the head of the used list; both lists stay circular and doubly linked and partition the buffers |
| CapiBuffers.XBuffers.Free | kernel/capifunc.c:658-669 | Moves one element to the head of the free list, likewise |
| CapiBuffers.XBuffers.Next | kernel/capifunc.c:626-626 | The first free buffer; negative exactly when none is free |
| CapiBuffers.MoveKeeps | kernel/capifunc.c:645-669 | The six assignments keep both rings and the partition, for any element and either list |
| CapiInterconnect.DeleteUndoesInsert | kernel/capifunc.c:481-498 | Deleting an inserted band restores the table |
| CapiInterconnect.InsertKeepsEntries | kernel/capifunc.c:981-1017 | Entries, owners and fields of old channels keep their values where they move |
| CapiInterconnect.InsertedEntriesAreZero | kernel/capifunc.c:989-1004 | Every entry in a new row or column is zero |
| CapiInterconnect.AddKeeps | kernel/capifunc.c:944-1028 | After an add the ranges of the active adapters tile the channels in slot order, and every row is owned by the adapter whose range it is in |
| CapiInterconnect.RemoveKeeps | kernel/capifunc.c:468-503 | The same after a removal |
| CapiInterconnect.RemoveUndoesAdd | kernel/capifunc.c:468-503 | Adding an adapter and removing it restores table and slots |
| CapiInterconnect.LineInterconnect.Add | kernel/capifunc.c:954-1028 | Base, new table, copied entries and shifted bases are those of the inserted band |
| CapiInterconnect.LineInterconnect.Clean | kernel/capifunc.c:468-513 | The memmoves over rows and entries and the shifted bases are those of the deleted band; max_adapter falls to the last active slot |

## Left out

Trace ring

- MsgQueue.MsgQueue.Alloc: takes sizes below 0x8000, because a larger size runs into the incomplete flag; the exact condition is HeaderKeepsSizeIff.
- The message the trace driver inserts for itself (`kernel/debug.c:1108-1148`), dumps, filters and management clients.

DTMF receiver

- DtmfGoertzel.GoertzelLoop: the branch for a negative fundamental coefficient is not modelled, because FundamentalInRange shows that the coefficient never becomes negative.
- DtmfPower.PowerExact: for accumulators below 2^30 in absolute value and non-negative coefficients; FrameStaysInRange shows that a frame has no others.
- The values of the A-law, u-law and window tables: arrays with bounds only.
- DtmfLevel.LevelIs: for no power at all the source shifts 0 by 32 bits (`kernel/capidtmf.c:667-668`), which C leaves undefined; the model takes the result as 0.
- DtmfReceiver.Receiver.RecvBlock: the coefficient table that all receivers share is modelled as one table per receiver; its last entry is written before every use.

Configuration storage

- Malformed storage and malformed text: the walkers and the reader are modelled on well-formed input.
- CfgPcInit.ListIsParametersIff: the firmware that reads the list is not part of the repository; the reader is the one the writer's format implies.
- CfgReader.Reader.ReadTlie: with too little space it is followed in trees whose sections are nested at most twice.  Its -1 counts as success one section further out (`kernel/diva_cfg_lib.c:1016-1019`), and reading then goes on in the middle of the text, where the result depends on `diva_cfg_find_tag_by_name`.
- CfgReader.Reader.ReadChildren: with too little space, in the same trees.
- Tokens: white space, comments and the tag table of the text (`to_next_tag`, `diva_cfg_find_tag_by_name` and `diva_cfg_ignore_unused` are not part of this model); a text string that ends the file is taken as malformed.
- CfgTranslate.Translate: RAM sections carry operation and value, offset plus length has 32 bits, and memory can be allocated.
- The functions that find and compare sections: long but shallow.

IDI engine

- Card memory: requests, indications and return codes are values; the CMA and receive DMA paths and the scom variants are not modelled.
- IdiReceive.Indicate: R buffers can hold the packet, with a byte to spare when a fragment is empty; Scatter says exactly when the position ends behind the list, and the source then looks at the length of a buffer there.  The application answers with a receive-not-ready value of 0, 1 or 2 and fewer than 255 buffers.  The lookup of the entity by its Id, and the marking of further indications of the same Id (`kernel/di.c:300-330`), are not part of it.
- IdiCompletion.OneCompletionIffShort: without flow control; what return codes do beside it is in Known.
- IdiAdapter.Adapter.ReturnCode: get_assign takes the entity out of the assign queue; callbacks do not change the tables; assigned Ids have a non-zero low part.
- IdiAdapter.Adapter.Enter: the limit on the number of entities is the size of the table.
- R buffers and X buffers are values in fields of the entity, so buffers that share memory are not modelled.

CAPI helpers

- CapiSendf.Application.Sendf: messages of at most 212 bytes, the size of the buffer of the first run, which stops taking arguments beyond it; DATA_B3 payloads, the mapping of the controller number, the lookup of the controller and failing allocation are not modelled.
- CapiSendf.Measure: formats of at most 212 bytes, likewise.
- CapiInterconnect.LineInterconnect.Add: adapters with channels of their own (`vscapi_mode == 0`); memory can be allocated.  A row holds its entries as values, not as pointers into one block.
- Registration of applications, DIDD callbacks, statistics.

Everything else in the repository (character devices, PCI and DMA mapping, interrupts, proc files,
the management state machine of `kernel/cfglib.c`, the large static tables) is outside this project.
