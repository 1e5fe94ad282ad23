# Verified models of the antares library code

Antares is a build system and support library for small microcontrollers. This project models the parts of its
library whose correctness is hardest to see: the heatshrink compressor and decompressor, the timer manager, the
stlinky terminal ring, the XMODEM receiver with its CRC-16, the USB low-speed serial console, the serial flash
driver, the BSD tail queues and the dependency-driven initcalls. The models are written in Dafny 4.11; `dafny
verify dfyconfig.toml` checks all of them.

Code that works by changing things in place is modelled as classes with the same fields, arrays and loops. Each
such class carries ghost fields for what its state stands for (all bytes sunk, all bits written, the two timer
queues, the elements of a queue, the bytes each side of a ring has sent), and each method is proved against them.
The laws themselves are lemmas about pure definitions: an LZSS bit stream, a stable merge, a protocol run, a
polynomial remainder, a page program that wraps.

## What is proved

**Heatshrink.** `Lzss` defines the bit stream as tokens and one pure decoder with a zero-filled history. The
decoder class delivers exactly what that pure decoder makes of all bits taken in so far, for every stream and every
way of cutting input and output. The encoder class keeps an invariant that ties its sliding buffer to the bytes
sunk, its tokens to those bytes and its output to the bits of the tokens. Every token is the answer of the match
search at its place, and that choice is unique, so the packed bytes do not depend on how the input was cut, on the
sizes of the output buffers or on whether the index is used. In terms of the data alone, no token is beaten by any
repetition within a window, as soon as the backlog holds one. Together they give the round trip: every byte
sequence, compressed and decompressed with any cuts on either side, comes back, and the decoder's finish reports
done. Both match searches (scan and index) give the nearest of the longest matches.

**Timers.** A pass fires, in order, the stable merge of the two queues and leaves the rest, less what callbacks took
out; nothing is early or left due, and every timer that a callback armed, the firing one included, waits in the fast
queue afterwards. Over every sequence of calls, with callbacks that arm, delete and re-queue timers, every call and
every action has exactly its effect, and each entry ever added has fired, waits or was deleted, as often as it was
added. Addition, deletion and re-queueing are proved on
the actual links in every state, with the exact condition under which they do their work.

**stlinky.** Both sides run as byte-by-byte steps in any interleaving: what is received is always a prefix of
what was sent, and no unread byte is overwritten; a block for which there is room goes through whatever the other side
does. The code of `stlinky_tx` and `stlinky_rx` is proved with the
peer free to move between any two of its accesses.

**XMODEM.** Against a stop-and-wait sender over a channel that loses or detectably damages frames and loses
replies, every run hands the writer the first blocks once each and in order, across the wrap of block numbers.
The receiver's code on the byte line is proved to be this protocol for every line, so that delivery is exactly once
for the code as well, to send exactly the prompts, answers and closing bytes it should, and to receive a whole
transmission. A frame passes the CRC exactly if it is a multiple of x^16 + x^12 + x^5 + 1, and every burst of up to
sixteen bits in a frame of any length is detected.

**Flash, console, queues, initcalls.** A buffer written to the flash reads back exactly when the range still had
every bit it needs, and page programs never leave their page. The ring macros are right exactly for powers of
two. Tail queue operations are sequence operations. Initcalls run what was called for and all it depends on, each
once and after its dependencies, on every acyclic graph. As a step machine on any graph at all, a call returns
exactly if no cycle can be reached from the object called for.

## Where the code does not do what one would expect

Each of these is stated by a lemma or contract, with the condition under which the code does behave.

- With a window of 4 bits and a lookahead of 2, a last back-reference of seven bits may be lost, because the
  decoder begins a token only while an unread byte is left (`Deviations.SmallestLosesTail`, `Lzss.DecodeEncoded`,
  `RoundTrip.RoundTripExactly`).
- With w + l = 27 a three-byte match costs 28 bits, one more than three literals, and eight bytes are packed into
  ten (`Deviations.WidestFieldsExceed`).
- The encoder's poll reports that it is empty although one byte is held back when the output is full at the final
  flush; finish still asks for another poll (`Deviations.HeldBack`).
- A zero-length sink makes an idle decoder read the next tag before its input is there. With a bit left that changes
  nothing; with none left the missing tag counts as that of a literal, and everything after is shifted by a bit
  (`Decoder.HeatshrinkDecoder.CleanIff`, `Decoder.HeatshrinkDecoder.Poll`, `Deviations.ZeroSinkSpoils`). With the
  smallest parameters the same call brings out the tail lost above (`Deviations.ZeroSinkRecovers`).
- Adding a timer that is queued already ruins both queues (`TimerManager.TimerManager.AddTimer`).
- Deleting a timer from the middle of a queue leaves the next timer's back link pointing at the deleted one. As long
  as that one is not queued again, deleting the next timer does nothing
  (`TimerManager.TimerManager.DeleteNeighbours`); once it has been re-queued, deleting the next timer makes the fast
  queue run into the main one (`TimerManager.TimerManager.ModThenDelete`). Deletion takes out the given timer, and
  re-queueing works, exactly when its back link is right, or when it is not queued and its stale links do no harm
  (`TimerManager.TimerManager.DelTimer`, `TimerManager.TimerManager.ModTimer`).
- The comparison with the previous block number is made in `int`, so a repeated block 255 is refused for ever
  when its acknowledgement was lost, even if nothing else ever goes wrong (`Xmodem.OneLossSticks`,
  `Xmodem.StuckForever`, `Xmodem.AdvancesIff`).
- The compile-time guard of the console's ring size accepts every even size, but only powers of two count right
  (`CircBuf.SizeMustBePower`, `CircBuf.SixMiscounts`).
- An initcall on a graph with a cycle calls itself without end (`InitMachine.ReturnsIff`).
- A packet from the host that wraps around the ring's end is stored with its beginning repeated
  (`Console.LandedIff`, `Console.WrappedPacketSpoiled`).

## Model

| member | source | states |
|---|---|---|
| `BitString.ReadWritten` | src/lib/compression/heatshrink_encoder.c:587-613 | a field written most significant bit first is read back as the same value |
| `BitString.WriteRead` | src/lib/compression/heatshrink_decoder.c:304-350 | a field read and written again gives the same bits |
| `BitString.ByteDigits` | src/lib/compression/heatshrink_decoder.c:304-350 | the bits of a byte are its binary digits, the highest first |
| `BitString.AndKeepsIff` | src/arch/arm/stm32/extra/stm32_eval_spi_flash.c:206-236 | masking changes nothing exactly when the mask has every bit that is set |
| `Lzss.NextToken` | src/lib/compression/heatshrink_decoder.c:199-300 | the token at the head of a bit string fits its fields and its bits are there |
| `Lzss.DecodeResumes` | src/lib/compression/heatshrink_decoder.c:143-197 | decoding can stop anywhere in the stream and go on when more bits arrive, with the same result |
| `Lzss.ReadToken` | src/lib/compression/heatshrink_decoder.c:199-300 | a written token is read back if the start rule lets it begin |
| `Lzss.DecodeTokens` | src/lib/compression/heatshrink_decoder.c:143-300 | the bits of a token sequence decode to its expansion, whatever bits follow |
| `Lzss.DecodeEncoded` | src/lib/compression/heatshrink_decoder.c:298-300 | tokens with padding decode to their expansion if and only if the last token is let begin; what comes out and what is left in either case |
| `Lzss.StartRuleHarmless` | src/lib/compression/heatshrink_decoder.c:298-300 | only the smallest parameters have a token shorter than a byte |
| `Lzss.SizeBound` | src/lib/compression/heatshrink_encoder.c:268-380 | at most nine bits for each byte up to w + l = 26, and 28 bits for three bytes at 27 |
| `Lzss.NothingBefore` | src/lib/compression/heatshrink_decoder.c:82-95 | copies that reach before the beginning find zeros |
| `Output.OutputInfo.PushByte` | src/lib/compression/heatshrink_decoder.c:378-382 | an output byte is appended inside the caller's buffer and nothing else of it changes |
| `DecoderModel.RingPush` | src/lib/compression/heatshrink_decoder.c:211-229 | writing the head of the window keeps every byte in reach at its ring position |
| `DecoderModel.HeadMasked` | src/lib/compression/heatshrink_decoder.c:273-296 | the 16-bit head counter, wrapped and masked, is the output length modulo the window |
| `DecoderModel.Stalled` | src/lib/compression/heatshrink_decoder.c:231-271 | when a field cannot be read yet, everything decodable has been output |
| `DecoderModel.DecodeBackref` | src/lib/compression/heatshrink_decoder.c:231-296 | the joined halves of index and count mean the copy the pure decoder makes |
| `Decoder.HeatshrinkDecoder.constructor` | src/lib/compression/heatshrink_decoder.c:82-95 | a reset decoder is valid and empty with a zeroed window |
| `Decoder.HeatshrinkDecoder.Sink` | src/lib/compression/heatshrink_decoder.c:98-121 | as many bytes as fit are taken and their bits added behind those not yet decoded; full exactly when there is no room; an idle decoder is woken also by no bytes at all |
| `Decoder.HeatshrinkDecoder.CleanIff` | src/lib/compression/heatshrink_decoder.c:199-209 | from w + l = 7 on, the next poll decodes what was sunk if and only if the decoder has not been woken without a bit to read |
| `Decoder.HeatshrinkDecoder.GetBits` | src/lib/compression/heatshrink_decoder.c:304-350 | the next bits most significant first, or, exactly when too few are there, no change at all |
| `Decoder.HeatshrinkDecoder.StInputAvailable` | src/lib/compression/heatshrink_decoder.c:199-209 | the tag bit is read and leads to a literal or to the index field |
| `Decoder.HeatshrinkDecoder.StYieldLiteral` | src/lib/compression/heatshrink_decoder.c:211-229 | a literal goes to output and window, or nothing changes for want of bits or space |
| `Decoder.HeatshrinkDecoder.StBackrefIndexMsb` | src/lib/compression/heatshrink_decoder.c:231-239 | high index bits are read or nothing changes because everything decodable is out |
| `Decoder.HeatshrinkDecoder.StBackrefIndexLsb` | src/lib/compression/heatshrink_decoder.c:241-251 | low index bits likewise |
| `Decoder.HeatshrinkDecoder.StBackrefCountMsb` | src/lib/compression/heatshrink_decoder.c:253-261 | high count bits likewise |
| `Decoder.HeatshrinkDecoder.StBackrefCountLsb` | src/lib/compression/heatshrink_decoder.c:263-271 | low count bits likewise |
| `Decoder.HeatshrinkDecoder.CopyByte` | src/lib/compression/heatshrink_decoder.c:273-296 | the byte at the given distance is copied to output and window, also when the copy overlaps itself |
| `Decoder.HeatshrinkDecoder.StYieldBackref` | src/lib/compression/heatshrink_decoder.c:273-296 | a copy goes on until it is complete or the output is full |
| `Decoder.HeatshrinkDecoder.StCheckForInput` | src/lib/compression/heatshrink_decoder.c:298-300 | idle exactly when no unread byte is left |
| `Decoder.HeatshrinkDecoder.Poll` | src/lib/compression/heatshrink_decoder.c:143-197 | never writes past the buffer; empty means that everything the bits taken in stand for is delivered; more is returned exactly when the buffer is full and the state is not the empty one; the bits stand for what was sunk unless a token is begun without a bit, in which case a literal tag is put in; terminates |
| `Decoder.HeatshrinkDecoder.Finish` | src/lib/compression/heatshrink_decoder.c:352-376 | done exactly when no unread byte and no unfinished copy is left and no token was asked for by a zero-length sink, and then nothing is missing |
| `MatchSearch.CommonMeans` | src/lib/compression/heatshrink_encoder.c:497-564 | a match length is a run of equal bytes that cannot be extended below the cap |
| `MatchSearch.FindLinear` | src/lib/compression/heatshrink_encoder.c:497-564 | the scan finds the nearest of the longest matches, or none of at least three bytes exists |
| `MatchSearch.DoIndexing` | src/lib/compression/heatshrink_encoder.c:432-469 | every position is linked to the previous position with the same byte |
| `MatchSearch.FindIndexed` | src/lib/compression/heatshrink_encoder.c:497-564 | the search along the index gives the same answer as the scan's specification |
| `MatchSearch.AnswersUnique` | src/lib/compression/heatshrink_encoder.c:497-564 | a search has only one right answer, so index and scan agree |
| `EncoderModel.WriteBit` | src/lib/compression/heatshrink_encoder.c:587-613 | one more bit in the current byte, which goes out when full |
| `EncoderModel.WriteByte` | src/lib/compression/heatshrink_encoder.c:587-613 | at a byte boundary the whole-byte path writes the same bits as the bit loop |
| `EncoderModel.FlushByte` | src/lib/compression/heatshrink_encoder.c:398-411 | flushing pads the bits with zeros to a whole byte |
| `EncoderModel.SlideSink` | src/lib/compression/heatshrink_encoder.c:145-174 | sinking keeps the buffer a window of the stream |
| `EncoderModel.SlideSave` | src/lib/compression/heatshrink_encoder.c:624-650 | the first save defines all but one lookahead of the backlog, the second all of it |
| `EncoderModel.SearchRange` | src/lib/compression/heatshrink_encoder.c:268-319 | the searched range never touches the undefined part and is less than a window long |
| `EncoderModel.AnswersShift` | src/lib/compression/heatshrink_encoder.c:268-319 | a search of the buffer is a search of the stream |
| `EncoderModel.MatchIsCopy` | src/lib/compression/heatshrink_encoder.c:268-319 | copying from a found match reproduces the input, also when it overlaps |
| `EncoderModel.Choice` | src/lib/compression/heatshrink_encoder.c:268-319 | whatever the search answers, the token offered fits its fields |
| `Encoder.HeatshrinkEncoder.constructor` | src/lib/compression/heatshrink_encoder.c:126-143 | a reset encoder is valid and empty |
| `Encoder.HeatshrinkEncoder.Sink` | src/lib/compression/heatshrink_encoder.c:145-174 | refused exactly while finishing or working a round off; else as many bytes as fit are taken |
| `Encoder.HeatshrinkEncoder.Finish` | src/lib/compression/heatshrink_encoder.c:260-266 | starts the last round; done exactly when everything is written |
| `Encoder.HeatshrinkEncoder.PushBits` | src/lib/compression/heatshrink_encoder.c:587-613 | the low bits of a value are appended and at most one byte goes out |
| `Encoder.HeatshrinkEncoder.PushOutgoingBits` | src/lib/compression/heatshrink_encoder.c:566-583 | the next piece of a field is appended; zero exactly when none is left |
| `Encoder.HeatshrinkEncoder.PushLiteralByte` | src/lib/compression/heatshrink_encoder.c:615-622 | the literal is the stream byte before the scan position |
| `Encoder.HeatshrinkEncoder.StYieldTagBit` | src/lib/compression/heatshrink_encoder.c:321-336 | the tag bit is written, or the state is kept exactly when the output is full |
| `Encoder.HeatshrinkEncoder.StYieldLiteral` | src/lib/compression/heatshrink_encoder.c:338-348 | the literal is written, or the state is kept exactly when the output is full |
| `Encoder.HeatshrinkEncoder.StYieldBrIndex` | src/lib/compression/heatshrink_encoder.c:350-364 | the index field makes progress unless the output is full |
| `Encoder.HeatshrinkEncoder.StYieldBrLength` | src/lib/compression/heatshrink_encoder.c:366-380 | the length field makes progress unless the output is full |
| `Encoder.HeatshrinkEncoder.SaveProcessed` | src/lib/compression/heatshrink_encoder.c:624-650 | the processed input moves into the backlog and the rest to the front |
| `Encoder.HeatshrinkEncoder.StSaveBacklog` | src/lib/compression/heatshrink_encoder.c:382-396 | to the final flush when finishing, else back to taking input, losing nothing |
| `Encoder.HeatshrinkEncoder.FindLongestMatch` | src/lib/compression/heatshrink_encoder.c:497-564 | with or without the index, the answer of the search |
| `Encoder.HeatshrinkEncoder.ChooseToken` | src/lib/compression/heatshrink_encoder.c:268-319 | the token is the nearest of the longest matches in the searched part of the stream, or a literal if none pays; and in terms of the stream alone, no repetition of at most `2^l` bytes that begins within a window, as far as the backlog goes, is longer, or as long and nearer |
| `Encoder.HeatshrinkEncoder.StepSearch` | src/lib/compression/heatshrink_encoder.c:268-319 | a token while scanning, else the backlog |
| `Encoder.HeatshrinkEncoder.StFlushBitBuffer` | src/lib/compression/heatshrink_encoder.c:398-411 | the last bits go out, or wait exactly when there are some and no room |
| `Encoder.HeatshrinkEncoder.Run` | src/lib/compression/heatshrink_encoder.c:198-258 | the poll loop ends: every turn takes on less input, a later state or fewer pending bits |
| `Encoder.HeatshrinkEncoder.Poll` | src/lib/compression/heatshrink_encoder.c:198-258 | never writes past the buffer; what is written continues the bits of the tokens; what empty and more mean |
| `TokenChoice.RightUnique` | src/lib/compression/heatshrink_encoder.c:268-319 | the search leaves one right token at each place |
| `TokenChoice.OneChoice` | src/lib/compression/heatshrink_encoder.c:268-319 | there is one sequence of tokens that covers the data and is the search's answer everywhere, whatever the rounds the data came in |
| `Reach.AnswersUnbeaten` | src/lib/compression/heatshrink_encoder.c:497-564 | an answer of the search is beaten by no repetition of bytes in its range, up to the lookahead or the end of the data |
| `Reach.ReachFirst` | src/lib/compression/heatshrink_encoder.c:286-299 | until the backlog is first saved, a token is the best from the beginning of the data on |
| `Reach.ReachSecond` | src/lib/compression/heatshrink_encoder.c:286-299 | after the first save, the best within a window less a byte, but for the first bytes, which are not kept |
| `Reach.ReachThird` | src/lib/compression/heatshrink_encoder.c:286-299 | after the second save, the best within a window less a byte |
| `Reach.ReachFar` | src/lib/compression/heatshrink_encoder.c:268-319 | by position alone: all tokens of the data are unbeaten, from the start in data shorter than a window and before the first save, later within a window less a byte |
| `RoundTrip.FinishedStream` | src/lib/compression/heatshrink_encoder.c:198-411 | a finished encoder has written its tokens and fewer than eight zeros, and the tokens expand to the input |
| `RoundTrip.RoundTripExactly` | src/lib/compression/heatshrink_decoder.c:143-300 | the decoder's output is all of the input if and only if the last token is let begin |
| `RoundTrip.RoundTrips` | src/lib/compression/heatshrink_decoder.c:98-376 | from w + l = 7 on, a decoder fed a finished encoder's output stands for the input, and when drained it has delivered it and is empty |
| `RoundTrip.CompressDecompress` | src/lib/compression/heatshrink_encoder.c:145-411 | for all data and all cuts on both sides the data comes back, finish reports done, the packed bytes are the one packing of the data, and their number keeps its bound |
| `RoundTrip.Compress` | src/lib/compression/heatshrink_encoder.c:145-411 | sinking in any pieces and polling with any buffers finishes, with the one packing of the data, whose tokens nothing within reach beats |
| `RoundTrip.FinishedPacks` | src/lib/compression/heatshrink_encoder.c:198-411 | a finished encoder that was told to finish while taking input has written the encoding of the tokens the data calls for |
| `RoundTrip.OnePacking` | src/lib/compression/heatshrink_encoder.c:145-411 | data has one packing: neither the cuts of the input, nor the sizes of the output buffers, nor the use of the index can show in it |
| `RoundTrip.PackingReaches` | src/lib/compression/heatshrink_encoder.c:268-319 | so the one packing of the data consists of tokens that nothing within reach beats |
| `RoundTrip.Decompress` | src/lib/compression/heatshrink_decoder.c:98-376 | any stream in any pieces gives one pure decoding |
| `RoundTrip.OutputSoFar` | src/lib/compression/heatshrink_decoder.c:143-197 | at every time the output is a prefix of what the bits taken in stand for |
| `RoundTrip.EmittedBound` | src/lib/compression/heatshrink_encoder.c:268-380 | at any time at most nine eighths of the input, rounded up, and always at most twice the input |
| `Deviations.SmallestLosesTail` | src/lib/compression/heatshrink_decoder.c:298-300 | at (4, 2), in every run with any cuts, four equal bytes are packed into two, whose values are given, and come back as one |
| `Deviations.ZeroSinkRecovers` | src/lib/compression/heatshrink_decoder.c:98-121 | a zero-length sink and a poll afterwards bring all four |
| `Deviations.WidestFieldsExceed` | src/lib/compression/heatshrink_encoder.c:556-561 | at w = 14 and l = 13, in every run, eight bytes are packed into ten, more than nine bits a byte |
| `Deviations.HeldBack` | src/lib/compression/heatshrink_encoder.c:398-411 | one byte sunk and polled with room for one: the poll says empty, finish says more, and another byte comes |
| `Deviations.ZeroSinkSpoils` | src/lib/compression/heatshrink_decoder.c:199-209 | a zero-length sink and a poll on a fresh decoder let the next byte through untagged, where no output is due |
| `TimerOrder.MergeSorts` | src/lib/ulc/tmgr.c:36-82 | the merged queue is sorted and holds the old queue and the batch, each entry once |
| `TimerOrder.MergeStable` | src/lib/ulc/tmgr.c:36-82 | equal expiries come in order of addition and ahead of older equal ones |
| `TimerOrder.PassOrder` | src/lib/ulc/tmgr.c:28-104 | firings are in order of expiry, nothing fired is later than anything left, every entry fires, stays or was taken out and only once, and equal times come in order of addition |
| `TimerManager.TimerManager.constructor` | src/lib/ulc/tmgr.c:14-15 | both queues empty |
| `TimerManager.TimerManager.Interrupt` | src/lib/ulc/tmgr.c:22-26 | the clock goes on by one |
| `TimerManager.TimerManager.AddTimer` | src/lib/ulc/tmgr.c:107-123 | the timer is at the front of the fast queue and all links are right if and only if it was not queued; if it was, the links spell no queues at all |
| `TimerManager.TimerManager.FindSlot` | src/lib/ulc/tmgr.c:47-51 | the slot is behind all earlier timers and before all later or equal ones |
| `TimerManager.TimerManager.InsertTimer` | src/lib/ulc/tmgr.c:53-76 | the timer is spliced in there, with forward and back links |
| `TimerManager.TimerManager.MergeFast` | src/lib/ulc/tmgr.c:36-82 | the main queue becomes the merge of both queues and the fast one is empty |
| `TimerManager.TimerManager.PopHead` | src/lib/ulc/tmgr.c:86-96 | the head leaves and becomes idle |
| `TimerManager.TimerManager.Act` | src/lib/ulc/tmgr.c:22-159 | time goes on by exactly one; an idle timer is armed in front of the fast queue with its time; a timer whose back link is right is deleted from both queues, or re-queued once in front of the fast queue with its new time; anything else changes nothing |
| `TimerManager.TimerManager.RunCallback` | src/lib/ulc/tmgr.c:98-100 | every action of a callback, in order, does what it should; what it deletes or re-queues leaves the main queue, what it arms waits in the fast queue in front of what was there |
| `TimerManager.TimerManager.FireHead` | src/lib/ulc/tmgr.c:86-101 | the head fires now and its callback runs; if re-armed it waits in the fast queue |
| `TimerManager.TimerManager.FireDue` | src/lib/ulc/tmgr.c:84-102 | the firings and what is left are the queue less what callbacks took out; each firing takes the head and is followed by exactly what its callback does; none early; nothing due is left; what was armed waits |
| `TimerManager.TimerManager.Process` | src/lib/ulc/tmgr.c:28-104 | the firings of a pass followed by the main queue are the stable merge less what callbacks took out; none early, none left due; every timer armed by the callback of any firing, once it has fired or was not queued, is in the fast queue at the end; merge, firings and callbacks follow one another with their exact effects |
| `TimerManager.TimerManager.Drive` | src/lib/ulc/tmgr.c:22-159 | over every sequence of ticks, additions, deletions, re-queueings and passes, each call has exactly its effect, each entry added has fired, waits or was deleted, as often as it was added, and none fires early |
| `TimerTrace.TakenOutStaysOut` | src/lib/ulc/tmgr.c:84-102 | a timer that the callback of some firing deletes or re-queues does not fire again in that pass, even if armed again |
| `TimerTrace.OutAfter` | src/lib/ulc/tmgr.c:125-145 | a deleted timer is in neither queue, a re-queued one not in the main queue |
| `TimerTrace.ExactDeletes` | src/lib/ulc/tmgr.c:125-145 | while all back links are right, a deletion takes out every queued timer |
| `TimerManager.TimerManager.DelTimer` | src/lib/ulc/tmgr.c:125-145 | in every state and for every timer: it is out and the rest is as before if and only if its back link is right, or it is not queued and its links do no harm; the queues are just as before if and only if its links do no harm; back links stay exact if and only if it had no neighbour on one side |
| `TimerManager.TimerManager.ModTimer` | src/lib/ulc/tmgr.c:147-159 | in every state and for every timer: it is queued once, in front of the fast queue, with the new expiry, and all links are right, if and only if it could be taken out; back links as after a deletion |
| `TimerManager.TimerManager.DeleteNeighbours` | src/lib/ulc/tmgr.c:125-145 | deleting two neighbours in the middle, the first one first, leaves the second queued |
| `TimerManager.TimerManager.ModThenDelete` | src/lib/ulc/tmgr.c:125-159 | re-queueing a timer in the middle and deleting the next one leaves links that spell no queues at all |
| `Stlinky.UsageIs` | src/lib/stlinky/stlinky.c:63-143 | the usage computed from the indices is the number of bytes in the ring |
| `Stlinky.ChunkedIs` | src/lib/stlinky/stlinky.c:63-92 | the two-chunk copy puts each byte at its ring position |
| `Stlinky.ReadSizeIs` | src/lib/stlinky/stlinky.c:94-129 | the two-chunk computation takes the lesser of size and what is there |
| `Stlinky.StepSafe` | src/lib/stlinky/stlinky.c:63-129 | every step of either side keeps the ring safe |
| `Stlinky.EveryRunSafe` | src/lib/stlinky/stlinky.c:63-129 | in every interleaving what is received is a prefix of what was sent and no unread byte is overwritten |
| `Stlinky.WriteGoesThrough` | src/lib/stlinky/stlinky.c:63-92 | a block is published, whatever the reader does meanwhile, if and only if there was room for it |
| `Stlinky.ReadGoesThrough` | src/lib/stlinky/stlinky.c:94-129 | a reader gets the next bytes, as many as it asked for or were there, whatever the writer does meanwhile |
| `Stlinky.Channel.Tx` | src/lib/stlinky/stlinky.c:63-92 | all of the block or nothing, with the peer reading at any time |
| `Stlinky.Channel.Rx` | src/lib/stlinky/stlinky.c:94-129 | the next bytes in order, with the peer writing at any time |
| `Stlinky.Channel.Avail` | src/lib/stlinky/stlinky.c:131-143 | the number of bytes waiting |
| `Crc16.Crc16` | src/lib/crypto/crc16.c:3-16 | the loop computes the byte-wise CRC from a running seed |
| `Crc16.CrcAppend` | src/lib/crypto/crc16.c:3-16 | the value may be carried from block to block |
| `Crc16.CrcIsFeed` | src/lib/xmodem.c:26-40 | the byte-wise code is the bit-serial polynomial remainder |
| `Crc16.PassesIffZero` | src/lib/xmodem.c:43-65 | a frame passes if and only if the CRC over data and trailer is zero |
| `Crc16.BurstShows` | src/lib/xmodem.c:26-40 | no nonzero pattern within sixteen bits is divisible, wherever it stands |
| `Crc16.BurstDetected` | src/lib/xmodem.c:43-65 | a passing frame changed only within sixteen consecutive bits fails |
| `Polynomial.GeneratorVanishes` | src/lib/xmodem.c:26-40 | the generator x^16 + x^12 + x^5 + 1 itself leaves no remainder |
| `Polynomial.PassesIffMultiple` | src/lib/xmodem.c:43-65 | a frame passes if and only if its bits are a multiple of the generator |
| `Xmodem.Check` | src/lib/xmodem.c:43-65 | accepts exactly the frames whose CRC over data and trailer is zero, or whose sum of bytes modulo 256 is the trailer |
| `Xmodem.SumIs` | src/lib/xmodem.c:54-61 | the checksum is the sum of the bytes as numbers, modulo 256 |
| `Xmodem.OutgoingIntact` | src/lib/xmodem.c:173-297 | what a sender sends passes the check and carries its data |
| `Xmodem.OnNext` | src/lib/xmodem.c:140-167 | an intact next block is delivered and acknowledged |
| `Xmodem.OnRepeat` | src/lib/xmodem.c:140-167 | a repeated block is acknowledged without delivery, except after the wrap, until too many |
| `Xmodem.OnBad` | src/lib/xmodem.c:168-171 | anything else is refused without any change |
| `Xmodem.RefusedIff` | src/lib/xmodem.c:140-171 | refused, without any change, are exactly the frames whose two number bytes do not add up to 255, whose number is neither the next nor one less, or whose trailer does not fit |
| `Xmodem.NumberDamaged` | src/lib/xmodem.c:140 | a sound frame with exactly one of its two number bytes changed is always refused |
| `Xmodem.RepeatLimit` | src/lib/xmodem.c:157-164 | a block is acknowledged again twenty-four times, and the twenty-fifth repetition cancels |
| `Xmodem.FreshCount` | src/lib/xmodem.c:154-156 | the count of repetitions starts at twenty-five, at the beginning and with every block taken |
| `Xmodem.BlockNoWraps` | src/lib/xmodem.c:154 | which blocks are numbered 255 and 0 |
| `Xmodem.BlockNoIs` | src/lib/xmodem.c:154 | block k is numbered k modulo 256 |
| `Xmodem.ExchangeInStep` | src/lib/xmodem.c:129-171 | one exchange, whatever the channel does, keeps sender and receiver in step |
| `Xmodem.ExactlyOnce` | src/lib/xmodem.c:72-172 | after any run the writer has the first blocks once each, in order, cut at the destination size, and all of them when the sender is done |
| `Xmodem.AdvancesIff` | src/lib/xmodem.c:140-142 | an undisturbed exchange moves on if and only if it does not repeat a block across the wrap or once too often |
| `Xmodem.LostAckAtWrap` | src/lib/xmodem.c:141 | losing the acknowledgement of a block 255 leads to the stuck state |
| `Xmodem.StuckForever` | src/lib/xmodem.c:141 | from there no run changes anything again |
| `Xmodem.OneLossSticks` | src/lib/xmodem.c:141 | from the start: if the acknowledgement of a block 255 is the only thing ever lost, the transfer stops there, whatever follows |
| `XmodemLine.Line.FlushInput` | src/lib/xmodem.c:67-70 | reads on until a timeout |
| `XmodemLine.FlushedMeans` | src/lib/xmodem.c:67-70 | that is everything up to the first timeout, or to the end, and nothing behind it |
| `XmodemLine.Line.HuntFrame` | src/lib/xmodem.c:84-117 | finds what the hunt of 160 tries finds on this line, having sent the prompt once for each try, or nothing once a frame has been seen |
| `XmodemLine.HuntedMeans` | src/lib/xmodem.c:84-117 | what a hunt finds is on the line: a first byte, an end of text or two cancels in a row |
| `XmodemLine.HuntedOpens` | src/lib/xmodem.c:84-117 | a first byte or end of text that comes, after anything meaningless, before the tries run out is found, one try for each byte passed |
| `XmodemLine.HuntedCancels` | src/lib/xmodem.c:105-113 | a cancel ends the hunt if another follows at once, else it costs one try together with what follows it |
| `XmodemLine.HuntedFails` | src/lib/xmodem.c:84-117 | where nothing comes, the hunt fails after exactly its tries |
| `XmodemLine.Line.ReadFrame` | src/lib/xmodem.c:132-138 | complete exactly when all its bytes are there, and then read as it is, byte for byte |
| `XmodemLine.Line.Judge` | src/lib/xmodem.c:140-171 | a complete frame is dealt with as the protocol says, and refused exactly if its number bytes, its number or its trailer are wrong |
| `XmodemLine.Line.Respond` | src/lib/xmodem.c:157-171 | the answers are 0x06, 0x15 after draining the line, and three times 0x18 after draining it |
| `XmodemLine.Line.Accept` | src/lib/xmodem.c:144-166 | new data goes to the writer as far as the destination takes it |
| `XmodemLine.Line.TakeFrame` | src/lib/xmodem.c:129-171 | a frame whose first byte was seen is read, judged and answered |
| `XmodemLine.Line.CloseDown` | src/lib/xmodem.c:101-127 | the three other ways to end: the line is drained; an end of text and a cancel are answered 0x06, a failed hunt three times 0x18; what is returned |
| `XmodemLine.Line.XmodemGet` | src/lib/xmodem.c:72-172 | for every line, bytes written, answers and result are those of all the frames met from stop to stop, in order; in byte values: one prompt 0x43 a try in the first round and 0x15 in the second, 0x06 for each good frame and 0x15 for any other, 0x06 last on an end of text or cancel and three times 0x18 on giving up; the line is drained after every refusal and at the end; a normal end returns the number of bytes written; a whole transmission is received whole and answered with one 0x06 more than it has blocks; and if every complete frame is the sender's current one or detectably wrong, the first blocks are written once each and in order |
| `XmodemLine.WholeReplay` | src/lib/xmodem.c:72-172 | the frames of a transmission are all taken and acknowledged |
| `XmodemLine.WholeTrace` | src/lib/xmodem.c:72-172 | whatever the pauses, the frames met in a transmission are its blocks, all of them, and then its end of text |
| `XmodemLine.AnswersAre` | src/lib/xmodem.c:72-172 | one answer a frame: 0x06 exactly if it is complete and right, else 0x15 |
| `XmodemLine.ReplayIsRun` | src/lib/xmodem.c:72-172 | with such frames, and whichever of the answers are heard, the code does what the receiver of the exchange does in a run |
| `XmodemLine.OnceOnLine` | src/lib/xmodem.c:72-172 | so exactly-once delivery holds of the code |
| `XmodemLine.WireTransmits` | src/lib/xmodem.c:173-297 | every list of blocks of the two sizes, sent frame after frame with an end of text, is such a transmission |
| `XmodemLine.LenIsWritten` | src/lib/xmodem.c:144-156 | the running length is the number of bytes written |
| `CircBuf.Counts` | include/lib/circ_buf.h:16-35 | count and space add up to size - 1, and the to-end forms are the exact minima |
| `CircBuf.CountsOfStream` | include/lib/circ_buf.h:16-35 | the same in terms of the bytes that went in and came out |
| `CircBuf.MaskIs` | include/lib/circ_buf.h:16 | masking is the remainder, also for negative differences in two's complement |
| `CircBuf.SizeMustBePower` | include/lib/circ_buf.h:16 | counting is right for all indices if and only if the size is a power of two |
| `CircBuf.SixMiscounts` | src/lib/console/earlycon-vusb-lowserial.c:37-42 | a size of six passes the compile-time guard and miscounts |
| `Console.Terminal.constructor` | src/lib/console/earlycon-vusb-lowserial.c:45-51 | both rings empty and requests enabled |
| `Console.Terminal.FunctionRead` | src/lib/console/earlycon-vusb-lowserial.c:61-73 | the host gets the next bytes put: eight, or as many as wait, or as many as lie before the end of the ring, whichever is least |
| `Console.Terminal.CopyRound` | src/lib/console/earlycon-vusb-lowserial.c:77-85 | one copy, as far as packet and ring end allow, over no unread byte |
| `Console.Terminal.FunctionWrite` | src/lib/console/earlycon-vusb-lowserial.c:75-95 | a packet that fits is in after at most two rounds; requests stay enabled exactly if they were and there is room for another packet; done exactly when the announced length has come |
| `Console.Terminal.Poll` | src/lib/console/earlycon-vusb-lowserial.c:97-103 | what the host gets and leaves; requests are enabled afterwards exactly if they were and there is room for a packet, or there is room for more than one; an empty ring is never held off |
| `Console.Terminal.Putc` | src/lib/console/earlycon-vusb-lowserial.c:107-113 | the byte is put, at once if the ring is not full; else it was full and the host never read |
| `Console.Terminal.Getc` | src/lib/console/earlycon-vusb-lowserial.c:115-122 | the oldest byte landed, at once if there is one; else nothing was written from the second poll on |
| `Console.LandedIff` | src/lib/console/earlycon-vusb-lowserial.c:77-85 | a packet arrives as sent if and only if it does not wrap or repeats itself there |
| `Console.WrappedPacketSpoiled` | src/lib/console/earlycon-vusb-lowserial.c:77-85 | a two-byte packet that arrives wrong |
| `SpiFlash.ProgramInPage` | src/arch/arm/stm32/extra/stm32_eval_spi_flash.c:206-236 | a page program that stays in its page puts every byte at its address |
| `SpiFlash.OverlayReads` | src/arch/arm/stm32/extra/stm32_eval_spi_flash.c:247-350 | a range reads back as written if and only if every binary digit set in the data was set in it; the rest is untouched |
| `SpiFlash.AddressTravels` | src/arch/arm/stm32/extra/stm32_eval_spi_flash.c:215-220 | the three address bytes carry the address modulo 2^24 |
| `SpiFlash.Flash.WriteEnable` | src/arch/arm/stm32/extra/stm32_eval_spi_flash.c:469-479 | the device accepts the next program |
| `SpiFlash.Flash.WaitForWriteEnd` | src/arch/arm/stm32/extra/stm32_eval_spi_flash.c:487-509 | polling ends when the device is no longer busy |
| `SpiFlash.Flash.WritePage` | src/arch/arm/stm32/extra/stm32_eval_spi_flash.c:206-236 | the bytes sent make the device program them, wrapping within the page |
| `SpiFlash.Flash.WriteAligned` | src/arch/arm/stm32/extra/stm32_eval_spi_flash.c:256-273 | from a page boundary: whole pages and the rest |
| `SpiFlash.Flash.WriteUnaligned` | src/arch/arm/stm32/extra/stm32_eval_spi_flash.c:274-315 | from inside a page, with the eight-bit counters losing nothing |
| `SpiFlash.Flash.WriteBuffer` | src/arch/arm/stm32/extra/stm32_eval_spi_flash.c:247-316 | every byte is programmed once at its address and nothing else; the page programs follow one another and none leaves its page |
| `SpiFlash.Flash.ReadBuffer` | src/arch/arm/stm32/extra/stm32_eval_spi_flash.c:325-350 | the contents of the range |
| `SpiFlash.Flash.WriteAndRead` | src/arch/arm/stm32/extra/stm32_eval_spi_flash.c:247-350 | what is read back is the data if and only if the range had every bit it needs, as an erased range does |
| `TailQueue.Head.constructor` | src/arch/esp8266/include-sdk/queue.h:93-94 | an empty queue whose last link is its own first |
| `TailQueue.Head.Init` | src/arch/esp8266/include-sdk/queue.h:127-130 | the queue is empty |
| `TailQueue.Head.Empty` | src/arch/esp8266/include-sdk/queue.h:112 | empty exactly when the first link is null |
| `TailQueue.Head.InsertHead` | src/arch/esp8266/include-sdk/queue.h:138-142 | prepend |
| `TailQueue.Head.InsertTail` | src/arch/esp8266/include-sdk/queue.h:144-148 | append, through the address of the last link |
| `TailQueue.Head.InsertAfter` | src/arch/esp8266/include-sdk/queue.h:132-136 | insert behind a given element |
| `TailQueue.Head.RemoveHead` | src/arch/esp8266/include-sdk/queue.h:172-176 | all but the first |
| `TailQueue.Head.RemoveAfter` | src/arch/esp8266/include-sdk/queue.h:178-182 | without the element behind a given one |
| `TailQueue.Head.Remove` | src/arch/esp8266/include-sdk/queue.h:158-170 | without that element, found by its predecessor |
| `TailQueue.Head.Concat` | src/arch/esp8266/include-sdk/queue.h:104-110 | concatenation; the other queue is left empty and usable |
| `TailQueue.Head.Swap` | src/arch/esp8266/include-sdk/queue.h:184-195 | both queues exchanged, also when either is empty |
| `TailQueue.Head.InsertChainHead` | src/arch/esp8266/include-sdk/queue.h:197-202 | a chain prepended, whatever its last link held |
| `TailQueue.Head.Last` | src/arch/esp8266/include-sdk/queue.h:150-154 | the last element, from the address of its link |
| `TailQueue.Head.Foreach` | src/arch/esp8266/include-sdk/queue.h:116-119 | a walk meets every element in order |
| `TailQueue.Head.Sweep` | src/arch/esp8266/include-sdk/queue.h:122-125 | a walk that removes elements on the way keeps exactly the others, in order |
| `Initcall.AcyclicRanked` | include/generic/initcall.h:69-73 | every acyclic dependency graph has a rank by which calls end |
| `Initcall.RankedAcyclic` | include/generic/initcall.h:69-73 | and only acyclic ones have |
| `Initcall.Inits.Run` | src/lib/initcall.c:15-23 | the object has run, nothing was run twice, and nothing beyond what it depends on was started |
| `Initcall.Inits.RunBody` | include/generic/initcall.h:69-73 | all an object depends on has finished before it does |
| `Initcall.Inits.RunAll` | src/lib/initcall.c:15-23 | on every acyclic graph and for every order: exactly what was called for and what that depends on has run, each once and after its dependencies |
| `Initcall.NoCycleFinished` | src/lib/initcall.c:15-23 | where everything finished comes after its own dependencies, nothing on a cycle has finished |
| `InitMachine.RunSafe` | src/lib/initcall.c:15-23 | on any graph and in every run, an initialiser at work has all the dependencies it is past finished, and everything finished comes after its own |
| `InitMachine.EachOnce` | src/lib/initcall.c:15-23 | on any graph and in every run nothing finishes twice, although on a cycle it may be started again while at work |
| `InitMachine.DoomedNeverFinishes` | include/generic/initcall.h:69-73 | what can reach a cycle never finishes |
| `InitMachine.DoomedNeverReturns` | include/generic/initcall.h:69-73 | and a call for it is still at work after any number of steps |
| `InitMachine.ReturnsIff` | src/lib/initcall.c:15-23 | after any history, a call returns if and only if the object cannot reach a cycle, and then the object has finished |

## Left out

- Allocation and freeing, null arguments, logging and assertions of heatshrink: plumbing without a hard property.
- Encoder parameters with w = 15 (positions no longer fit signed 16-bit words) and with l = w (a full buffer is saved without progress); the decoder is modelled for all legal parameters.
- Encoder.HeatshrinkEncoder.constructor: the parameters w = 15 and l = w, which the allocator accepts, are excluded for the reasons above.
- Decoder.HeatshrinkDecoder.CleanIff: stated from w + l = 7 on; with the smallest parameters the exact condition is `Clean` itself, which also has a seven-bit token wait for a whole byte.
- Interrupt locking and wrap-around of the clock in the timer manager; each call is one step. The early return on `tick_parsed` is inert in the code.
- TimerManager.TimerManager.DelTimer: the timer's own links are taken to lead to timers of the program (`Inside`), as do those of every timer the program has set up; the same goes for re-queueing.
- TimerManager.TimerManager.RunCallback: a callback that arms, deletes or re-queues a timer first looks whether the timer is in a state in which that works, since otherwise the queues are lost; what happens then is stated of the three operations themselves.
- TimerManager.TimerManager.Drive: the record of a run tells which deletions and re-queueings could be done; that it was every queued timer's follows from the record as long as all back links were right, and is stated of each action by itself (TimerManager.TimerManager.Act) after that.
- InitMachine.ReturnsIff: an initialiser is the list of its dependencies; what it does besides them is assumed to end.
- Xmodem.ExactlyOnce: damage that leaves a frame intact in the eyes of the check is excluded, and so are replies delayed past the next frame; the sender is part of the environment.
- XmodemLine.Line.XmodemGet: how long a timeout lasts, and what the writer does with the bytes.
- Memory ordering between the microcontroller and the debugger in stlinky: bytes and indices are read and written one at a time, in program order.
- Console.Terminal.Putc: waiting is modelled over a given list of polls; whether the host ever reads is up to the host. The USB driver itself is left out.
- Console.Terminal.FunctionWrite: a packet that does not fit, for which the copy loop would not end; flow control rules it out (Console.Terminal.Poll).
- Sector and bulk erase, identification and other commands of the flash; the device finishes a program after some number of status reads.
- The SLIST macros of the same header, which would repeat the easier half of the tail queues.
- Radio, display, SD card and LED drivers, delay loops, remote procedure calls, start-up code and vendor headers: register sequences for devices outside the repository, or declarations.
