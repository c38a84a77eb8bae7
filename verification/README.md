# Verification of the receiver's protocol, buffer and audio logic

This project models the stateful core of the CarPlay / Android Auto receiver in Dafny and
proves what that code is relied on for. It covers:

- the wire framing and the incremental parser that reassembles messages from USB chunks
  (`wire.dfy`, `stream_parser.dfy`, `resync.dfy`);
- the software decoder's four-buffer pool, its GPU lane, the CPU rotation of NV12 frames, and
  the touch mapping that has to undo the rotation (`buffer_pool.dfy`, `gpu_ingest.dfy`,
  `rotation.dfy`, `touch.dfy`, `touch_mapper.dfy`);
- the audio mixer: one lane's resampler, its gain ramp, its whole life, and the mix of all lanes
  (`rounding.dfy`, `mixer.dfy`, `signal.dfy`, `gain.dfy`, `lane_life.dfy`, `block_split.dfy`,
  `interpolation.dfy`, `mixer_events.dfy`, `audio_mixer.dfy`);
- the USB transfer ring, the VAAPI source's ownership of descriptors and surfaces, the V4L2 pump
  queue and the connection supervisor (`transfers.dfy`, `shutdown.dfy`, `vaapi.dfy`,
  `v4l2_pump.dfy`, `supervisor.dfy`).

`bytes.dfy`, `options.dfy` and `sequences.dfy` hold what several modules share.

Code that updates fields in place is a class whose methods are proved against specification
functions on values. Where several threads meet, each section under a lock, or each access to an
atomic, is an event; theorems about runs quantify over every sequence of events, and the class
methods are proved to perform exactly those steps.

Things the proofs brought out, each stated by a member below:

- Self-synchronisation after garbage fails for one family of frames only: those whose type's high
  half complements the high half of their length, with a zero second length byte, behind garbage
  that ends in half a magic. No type below 2^24 is in that family (`Resync.Synchronises`).
- Four buffers suffice for a scene holding at most two, in any order of release. What a scene
  holds is safe exactly as long as it does not release a buffer that it holds a second time
  (`BufferPool.PoolNeverDryFromStart`, `BufferPool.HeldBuffersKeepTheirFrames`).
- Cutting a block in two changes neither output, data nor head. It changes the gain exactly when the
  data does not last for the first part and the ramp is not over one step after the data, and then
  what is played later too (`BlockSplit.SplitIff`, `BlockSplit.ACutThatShows`).
- A frame decoded without a modifier locks no size in, and can leave a framebuffer of its size to be
  shown under another format; with modifiers a change of resolution never gets through
  (`Vaapi.AFramebufferOfAnotherSize`, `Vaapi.ResolutionNeverChanges`).
- `stop()` frees the ring safely, but whether it cancels every transfer and drains every send
  depends on the moment it clears the flag: the former fails exactly when a callback is about to
  resubmit, and then `stop()` waits for the device; the latter exactly when a send has tested the
  flag and is not counted yet. The comment in the code says only that it cannot race
  (`Shutdown.CancellationCanFailIff`, `Shutdown.DrainsIff`, `Transfers.StopWaitsForTheDevice`).
- The comment above the supervisor's constants promises exponential backoff for flapping sessions.
  A successful connect clears the backoff, so every flap waits the minimum
  (`Supervisor.FlapsWaitTheSame`).
- The GPU lane numbers a frame even when the reference to it could not be taken, so its freshness
  report is right exactly when the newest arrival could be referenced, or none has come
  (`GpuIngest.FreshnessIsRight`).

## Model

| member | source | states |
|---|---|---|
| Wire.U32RoundTrip | src/protocol.h:151-160 | every 32-bit word survives encoding and decoding |
| Wire.U32OfGet | src/protocol.h:151-160 | decoding four bytes and encoding the word gives the four bytes back, so the encoding is onto |
| Wire.ParseIffEncoding | src/protocol.h:174-194 | a header is parsed from bytes if and only if the first sixteen are its encoding: magic, length, type, complement of the type |
| Wire.ByteVector.PutU32 | src/protocol.h:151-156 | four bytes are appended and nothing before them changes |
| Wire.ByteVector.AppendHeader | src/protocol.h:187-194 | the sixteen header bytes are appended |
| Wire.Frame | src/protocol.h:197-204 | the built vector is header followed by payload, with the length taken modulo 2^32 |
| Wire.SendFile | src/protocol.h:207-218 | the built vector is the frame of name length, name, zero byte, content length, content: header words, both length words modulo 2^32 and the place of every part, read back from the bytes |
| Wire.SendFileInjective | src/protocol.h:207-218 | two files with NUL-free names whose frames are the same bytes have the same name and content, at any length |
| StreamParsing.RestIsUndecided | src/stream_parser.h:44-80 | what the one-shot decoder leaves cannot be decided without more bytes |
| StreamParsing.DecodeAppend | src/stream_parser.h:44-80 | decoding may stop after any byte and go on from the undecided rest |
| StreamParsing.ChunkInvariance | src/stream_parser.h:44-80 | for every split into chunks, empty ones included, successive feeds dispatch and retain what one decode of the concatenation does |
| StreamParsing.StreamParser.constructor | src/stream_parser.h:34-34 | a new parser retains nothing and has dispatched nothing |
| StreamParsing.StreamParser.Reset | src/stream_parser.h:36-41 | nothing is retained any more although the assembling flag stays as it was |
| StreamParsing.StreamParser.FinishMessage | src/stream_parser.h:124-130 | back to the fast path with nothing retained |
| StreamParsing.StreamParser.RetainedUndecided | src/stream_parser.h:133-140 | whatever is carried over, partial header or accepted header with partial payload, is undecided |
| StreamParsing.StreamParser.Feed | src/stream_parser.h:44-80 | messages dispatched and bytes retained are exactly the decoder's result on the retained bytes followed by the chunk |
| StreamParsing.StreamParser.TakeFront | src/stream_parser.h:51-78 | the fast path takes at least one byte and does not change where decoding ends up |
| StreamParsing.StreamParser.Assemble | src/stream_parser.h:85-122 | each call takes at least one byte, bad headers included, and does not change where decoding ends up |
| StreamParsing.StreamParser.FillHeader | src/stream_parser.h:87-110 | a carried header is completed, dispatched at once when its payload is empty, or shifted by one byte when bad |
| StreamParsing.StreamParser.FillPayload | src/stream_parser.h:111-121 | a carried payload takes what it needs and is dispatched when complete |
| StreamParsing.StreamParser.CarryHeader | src/stream_parser.h:52-58 | fewer than sixteen bytes at the end are carried whole |
| StreamParsing.StreamParser.CarryPayload | src/stream_parser.h:69-78 | an accepted header and the available part of its payload are carried |
| StreamParsing.FeedChunks | src/stream_parser.h:44-80 | a run of feeds on the real parser ends as the one-shot decoder does on the concatenation |
| StreamParsing.ResetIsFresh | src/stream_parser.h:36-41 | after reset the parser dispatches and retains exactly what a new one does, for any chunks |
| Resync.StreamIsDecoded | src/protocol.h:197-204 | the decoder inverts the encoder on every list of messages within the limit |
| Resync.DispatchedAreSendable | src/stream_parser.h:60-63 | no message above the limit is ever dispatched |
| Resync.RoundTrip | src/stream_parser.h:44-80 | under any chunking the frames of a list are dispatched as that list with nothing retained, if and only if every payload is within the limit |
| Resync.ShadowHeader | src/protocol.h:174-194 | two bytes early behind half a magic, a frame reads as another header exactly when its type and length are in the shadowed family |
| Resync.Synchronises | src/stream_parser.h:59-63 | after garbage without a magic the frames and nothing else are dispatched, if and only if the garbage does not end in half a magic before a shadowed frame |
| Resync.SynchronisesInChunks | src/stream_parser.h:95-100 | the same under any chunking for a first frame of type below 2^24, where the length cap rules the overlap out |
| Resync.ShadowedFrameIsLost | src/stream_parser.h:59-63 | behind garbage ending in half a magic, a shadowed frame with less than 0x55a8 bytes of payload is not dispatched, nor is anything else |
| Resync.AShadowedFrame | src/protocol.h:174-194 | such frames and such garbage exist |
| BufferPool.EveryInterleaving | src/software_decoder_source.cpp:220-257 | in every interleaving the slot being filled is not displayed, pending or in flight, and frames shown strictly increase |
| BufferPool.AcquireShowsNewest | src/software_decoder_source.cpp:503-518 | a promotion shows the newest published frame, newer than all before; otherwise the last one is repeated |
| BufferPool.PublishedIsShown | src/software_decoder_source.cpp:256-518 | whatever is filled or released meanwhile, the next acquire after a publication shows that frame from the buffer it was written into |
| BufferPool.OnlyEarlyReleaseBreaks | src/software_decoder_source.cpp:520-528 | a step leaves every held buffer in flight with the frame it was acquired with, if and only if it does not release a buffer that is held a second time |
| BufferPool.HeldBuffersKeepTheirFrames | src/software_decoder_source.cpp:220-257 | in every interleaving held buffers keep their frames throughout, if and only if no buffer is released while held a second time |
| BufferPool.HeldFramesAreStable | src/software_decoder_source.cpp:503-528 | a scene that never acquires what it holds never releases early, so each held buffer keeps its whole frame until release |
| BufferPool.GatedRunsAreStable | src/main_kms.cpp:832-840 | every run from the start whose acquires happen only when a frame is pending, or when nothing is held, is disciplined and stable |
| BufferPool.EarlyReleaseTearsAHeldBuffer | src/software_decoder_source.cpp:520-528 | a run in which a buffer acquired twice and released once is written into while still held |
| BufferPool.PoolNeverDry | src/software_decoder_source.cpp:381-390 | with at most two buffers in flight throughout, a free slot is always found |
| BufferPool.PoolNeverDryFromStart | src/software_decoder_source.h:110-110 | the same for every run from the initial pool, whatever the order of release |
| BufferPool.ThreeHeldIsTooMany | src/software_decoder_source.cpp:225-226 | with three held and one pending the next frame is dropped, so two is the limit of four buffers |
| BufferPool.DryIff | src/software_decoder_source.cpp:381-390 | in any reachable state no slot is found if and only if the slots in flight or displayed, and one more for a pending frame, are all four |
| BufferPool.SoftwareDecoderSource.PickFreeSlot | src/software_decoder_source.cpp:381-390 | the lowest free slot, or -1 exactly when none is free |
| BufferPool.SoftwareDecoderSource.BeginFrame | src/software_decoder_source.cpp:220-226 | the pick step of the decode thread |
| BufferPool.SoftwareDecoderSource.PublishFrame | src/software_decoder_source.cpp:256-257 | the filled slot becomes pending |
| BufferPool.SoftwareDecoderSource.AcquireBuffer | src/software_decoder_source.cpp:503-518 | pending is promoted, the displayed buffer is put in flight, or "try again" when none was ever shown |
| BufferPool.SoftwareDecoderSource.ReleaseBuffer | src/software_decoder_source.cpp:520-528 | exactly the buffer with that framebuffer id leaves flight |
| BufferPool.SoftwareDecoderSource.HasFreshContent | src/software_decoder_source.cpp:535-538 | true exactly when a published frame waits |
| GpuIngest.Ingest.OnFrame | src/software_decoder_source.cpp:195-203 | the newest frame replaces the kept one and the number goes up by one, even without a reference |
| GpuIngest.Ingest.AcquireDecodedFrame | src/software_decoder_source.cpp:270-294 | the number on a borrowed frame names exactly that frame, the newest one |
| GpuIngest.Ingest.ReleaseDecodedFrame | src/software_decoder_source.cpp:296-301 | the borrowed frame is given back |
| GpuIngest.GlRotateSource.RenderFrame | src/gl_rotate_source.cpp:212-255 | a draw is a run of the machine whatever arrives during upload and draw; it succeeds exactly when the newest arrival can be referenced twice and the calls succeed, and otherwise changes nothing drawn |
| GpuIngest.GlRotateSource.HasFreshContent | src/gl_rotate_source.cpp:271-276 | true exactly when a frame has arrived after the last one rendered; right about newer frames kept, if and only if none has arrived or the newest arrival could be referenced |
| GpuIngest.CommitLoop | src/main_kms.cpp:832-840 | gated by freshness no frame is drawn twice, with arrivals before the test, between test and borrow, and during the draw |
| GpuIngest.CatchUp | src/gl_rotate_source.cpp:212-255 | one draw without failures shows the newest frame and leaves nothing fresh |
| GpuIngest.DrawsNameTheirFrames | src/gl_rotate_source.cpp:212-255 | in every interleaving of arrivals with the sections of a draw, the number being drawn names exactly its frame, numbers drawn never go back, and the front buffer shows the picture its number names |
| GpuIngest.FreshnessIsRight | src/gl_rotate_source.cpp:271-276 | in every interleaving the report is true exactly when a newer frame has been kept, if and only if nothing has arrived since the last draw or the reference to the newest arrival was taken; a fresh report has a drawable frame exactly then |
| GpuIngest.FreshWithoutAFrame | src/software_decoder_source.cpp:199-201 | after any run one arrival whose reference fails makes the report wrong |
| Rotation.SourceIsBijective | src/software_decoder_source.cpp:414-443 | each output pixel shows a source pixel, and every source pixel exactly once |
| Rotation.SourceComposes | src/software_decoder_source.cpp:431-443 | rotating twice shows the pixel the summed rotation shows |
| Rotation.ChromaFollowsLuma | src/software_decoder_source.cpp:183-193 | every luma pixel keeps its own chroma pair if and only if the mirrored dimensions are even |
| Rotation.PixelsMove | src/software_decoder_source.cpp:392-455 | each output pixel has the luma and both chroma bytes of the source pixel it shows |
| Rotation.RotationsAddUp | src/software_decoder_source.cpp:392-455 | on even frames two rotations give the image of their sum, for all sixteen pairs; 90 then 90 is 180 |
| Rotation.NoRotation | src/software_decoder_source.cpp:229-236 | no rotation is the identity on images |
| Rotation.FourTimesIsIdentity | src/software_decoder_source.cpp:392-455 | four times the same rotation is the identity |
| Rotation.InverseUndoes | src/software_decoder_source.cpp:392-455 | 90 and 270 undo each other and 180 undoes itself |
| Rotation.RotateThereAndBack | src/software_decoder_source.cpp:392-455 | the kernel itself, run there and back on a packed frame, restores every byte |
| Rotation.PackedImageInjective | src/software_decoder_source.cpp:392-400 | packed buffers with the same image are the same bytes |
| Rotation.RotateNv12 | src/software_decoder_source.cpp:392-455 | in bounds for any even size and stride, both planes of the output are exactly the rotated image and no padding byte is written |
| Rotation.TurnLuma | src/software_decoder_source.cpp:414-418 | the luma rows of a half turn |
| Rotation.TurnChroma | src/software_decoder_source.cpp:419-428 | the chroma pairs of a half turn |
| Rotation.QuarterLuma | src/software_decoder_source.cpp:436-443 | the luma rows of a quarter turn, column by column |
| Rotation.QuarterChroma | src/software_decoder_source.cpp:444-454 | the chroma pairs of a quarter turn |
| Touch.EncodingsAgree | src/input_touch.h:115-132 | for each angle the CPU kernel, the touch mapping and the GPU matrix name the same source pixel centre |
| Touch.SamplingIsUnrotation | src/gl_rotate_source.cpp:74-85 | the GPU matrix, with GL's y up, samples where the touch mapping points, at every point |
| Touch.TouchHitsWhatIsShown | src/input_touch.h:107-136 | touching the display where a pixel is shown reports the centre of the video pixel shown there |
| Touch.ReportedIsUnderTheTouch | src/input_touch.h:107-136 | nothing is reported if and only if the point is outside the rectangle, in display pixels; otherwise the reported point is the one point of the video shown under it |
| Touch.PixelsAreOnScreen | src/input_touch.h:107-136 | that place on the screen is where the source pixel of the rotation kernel is shown |
| Touch.DragFollowsContent | src/input_touch.h:142-161 | the rotated pointer delta moves the reported point by the original delta: the inverse of the mapping's linear part |
| Touch.FitInsidePanel | src/main_kms.cpp:683-689 | the fitted rectangle lies in the panel, fills one side, is centred, and keeps the shape to half a pixel |
| TouchMapping.EncodeInside | src/protocol.h:306-310 | in the unit square the fixed-point code is monotone, within range and off by less than one step |
| TouchMapping.EncodeOutside | src/protocol.h:306-310 | outside the unit square the code is the nearer end of its range |
| TouchMapping.MovedIsNearest | src/input_touch.h:206-209 | the cursor goes where the motion times the gain takes it, or to the nearest place on the display |
| TouchMapping.VideoPointInUnit | src/input_touch.h:107-136 | every reported point lies in the unit square |
| TouchMapping.TouchMapper.Emit | src/input_touch.h:163-175 | over the video exactly one message goes out, for the point of the video shown under the touch; outside the rectangle, in display pixels, presses and moves send nothing and a release goes to the last point sent |
| TouchMapping.TouchMapper.HandleTouch | src/input_touch.h:177-198 | what each touch event sends, in the same terms, and whether a finger is down after it |
| TouchMapping.TouchMapper.HandleMotion | src/input_touch.h:201-223 | the cursor stays on the display and a drag reports the point under it, at most once per interval |
| TouchMapping.TouchMapper.HandleMotions | src/input_touch.h:214-223 | for any motions of a drag exactly the motions spaced by the interval are reported, each with at most one message |
| TouchMapping.ReportsAreSpaced | src/input_touch.h:61-68 | whatever the motions, each report comes at least an interval after the one before |
| TouchMapping.ReportRate | src/input_touch.h:61-68 | n+1 reports take at least n intervals |
| TouchMapping.EveryMotionIsCovered | src/input_touch.h:214-223 | no motion is held back further than an interval from a report |
| TouchMapping.TouchMapper.HandleButton | src/input_touch.h:224-233 | the left button is a finger at the cursor, sending what a touch there would; other buttons do nothing |
| TouchMapping.TouchPixel | src/input_touch.h:163-190 | a finger on the spot where an output pixel's centre is shown sends exactly one message, a press at the centre of the source pixel shown there |
| Rounding.LRoundNearest | src/audio_alsa.cpp:186-186 | rounding is to the nearest integer |
| Rounding.LRoundHalves | src/audio_alsa.cpp:186-186 | halves go away from zero |
| Mixer.ContributionShifted | src/audio_alsa.cpp:171-207 | erasing frames behind the head does not change what the lane contributes next |
| Mixer.PlayShifted | src/audio_alsa.cpp:200-206 | erasing before a block or after it comes to the same lane and output |
| Mixer.PlaySplit | src/audio_alsa.cpp:174-199 | playing a then b frames is playing a+b unless the data ends within the first a |
| Mixer.MixSplit | src/audio_alsa.cpp:171-207 | for any lane, mixing blocks a then b equals mixing a+b in output, data and head; BlockSplit.SplitIff says when in gain too |
| Signal.ContributionIsOnLine | src/audio_alsa.cpp:180-197 | in each channel what a lane contributes is the sample nearest to the gain times the straight line between the ring's frames around the head, the last frame being held; a mono lane is the same in both |
| Signal.BlockIs | src/audio_alsa.cpp:172-199 | a block moves the head by frames times rate over 44100 and stops short exactly where that reaches the end of the ring |
| Signal.BlockErases | src/audio_alsa.cpp:200-206 | after a block exactly the whole frames the head has passed are gone from the front of the ring |
| Gain.DuckKeepsGainOk | src/audio_alsa.cpp:118-125 | a duck command keeps gain and target in [0,1] and points the step at the target without moving the gain |
| Gain.AdvanceTowardTarget | src/audio_alsa.cpp:175-177 | each step moves toward the target and never past it |
| Gain.PlayTowardTarget | src/audio_alsa.cpp:174-199 | so does every block |
| Gain.PlayGain | src/audio_alsa.cpp:174-180 | a block takes one gain step per frame played, and one more when it runs dry |
| Gain.EnvelopeIsALine | src/audio_alsa.cpp:175-177 | after k steps the gain is the start plus k steps, held at the target once it is met |
| Gain.RampReachesTarget | src/audio_alsa.cpp:123-125 | after at least max(1, secs times rate) steps, secs being 0.02 for a duration not above zero, the gain is the commanded volume, clamped to [0,1] |
| Gain.PlayInRange | src/audio_alsa.cpp:184-197 | every contribution is a 16-bit sample |
| Gain.AccumulatorFits | src/audio_alsa.cpp:247-249 | with up to 65536 contributions no partial sum leaves 32 bits |
| LaneLife.AppendIsShift | src/audio_alsa.cpp:127-135 | capping the backlog is moving the head up to the cut and erasing |
| LaneLife.RefinesIdeal | src/audio_alsa.cpp:112-138 | over any life of frame-aligned input the lane puts out what an ideal lane that never erases puts out, and is that lane with its past cut off |
| LaneLife.HeadAccountsForOutput | src/audio_alsa.cpp:198-206 | frames consumed plus head equal ratio times frames emitted while the cap is not hit; a cap hit only moves the head forward |
| LaneLife.PlayAt | src/audio_alsa.cpp:178-198 | frame j of a block lies on the straight line between the ring's samples around its place, j rate steps over 44100 after the block's head, with the gain after j+1 steps |
| LaneLife.ArrivedIsFinal | src/audio_alsa.cpp:181-197 | once the next source frame has arrived later input does not change an output frame |
| LaneLife.Passthrough | src/audio_alsa.cpp:171-207 | a lone 44100 Hz stereo lane at full gain puts out its input in order for any submit sizes and block schedule |
| LaneLife.ShortBlockMeansDry | src/audio_alsa.cpp:178-180 | silence is inserted only when everything received has been played |
| LaneLife.BornPlain | src/audio_alsa.cpp:49-67 | a new lane is one of those if and only if its decode type means 44100 Hz stereo, the unlisted types included |
| BlockSplit.BlockLength | src/audio_alsa.cpp:172-180 | a block puts out as many frames as it asks for and the data lasts, (frames available minus head) over ratio rounded up |
| BlockSplit.FullBlock | src/audio_alsa.cpp:178-180 | a block is full if and only if its last frame still finds data under the head |
| BlockSplit.SplitIff | src/audio_alsa.cpp:171-207 | two blocks of a and b frames leave exactly the lane that one of a+b does, if and only if the data lasts for a, b is empty, or the ramp is over one step after the data; told from the lane before the call |
| BlockSplit.ACutThatShows | src/audio_alsa.cpp:174-180 | a new lane ducked before any samples arrive: cutting a block changes its gain and the level of what is played next |
| BlockSplit.LifeSplitIff | src/audio_alsa.cpp:171-207 | the same equivalence for the state of a whole life |
| BlockSplit.LifeGainOk | src/audio_alsa.cpp:118-125 | over any life gain and target stay levels and the step points at the target |
| BlockSplit.FullBlocksAddUp | src/audio_alsa.cpp:171-207 | a full first block never shows, whatever the gain |
| BlockSplit.BlockSizesInvisible | src/audio_alsa.cpp:209-210 | while the data lasts any schedule of blocks leaves the life that one block of their total does |
| BlockSplit.CutNeverShows | src/audio_alsa.cpp:171-207 | a cut that does not show at once never does, whatever follows |
| Interpolation.OutputInterpolatesSignal | src/audio_alsa.cpp:171-207 | over any life of frame-aligned input, ramps and cap hits included, each output frame lies on the straight line between the received samples around the head noted when it was mixed, times the gain and rounded, in what had been received by then, and in the whole signal where the next source frame had arrived; heads advance by at least rate over 44100 |
| Interpolation.HeardWhenMixed | src/audio_alsa.cpp:171-173 | the notes of a block count exactly the samples submitted before it |
| Interpolation.UncappedHeads | src/audio_alsa.cpp:198-198 | while the cap is not hit output frame k is read at k times rate over 44100 |
| Interpolation.UnrampedGains | src/audio_alsa.cpp:175-177 | without ramps every frame is read at full gain |
| MixerEvents.SubmittedTakes | src/audio_alsa.cpp:112-136 | a frame's PCM is appended, the oldest samples above rate times channels are dropped and the head goes back by the frames dropped; a duck command aims gain and step at the volume and changes nothing else |
| MixerEvents.StreamsAreApart | src/audio_alsa.cpp:100-249 | for every sequence of frames for any streams, blocks and drops, a stream's lane is what its own frames since it was last dropped, and all blocks, make of a new lane |
| MixerEvents.LaneIsItsLife | src/audio_alsa.cpp:100-249 | and so is the lane of the life those events make, which the theorems about lives are about |
| MixerEvents.LifePutsOutShares | src/audio_alsa.cpp:171-249 | what a block of the mixer takes from a stream is what the stream's life puts out next |
| MixerEvents.StreamFormat | src/audio_alsa.cpp:49-136 | after any history the lane of a stream has the rate and channels that the table gives its decode type, and at most a second of backlog |
| AudioMixing.OrderIrrelevant | src/audio_alsa.cpp:247-249 | the sum of the lanes' shares does not depend on the order of the lanes |
| AudioMixing.MixNeverOverflows | src/audio_alsa.cpp:247-249 | with up to 65536 lanes no partial sum of a mix leaves 32 bits, in any order |
| AudioMixing.OverflowIff | src/audio_alsa.cpp:247-249 | some mix of n lanes leaves 32 bits if and only if n is above 65536 |
| AudioMixing.AudioMixer.LaneFor | src/audio_alsa.cpp:100-110 | the stream's lane, made fresh with its format when there is none; other lanes untouched |
| AudioMixing.AudioMixer.Submit | src/audio_alsa.cpp:112-138 | the stream's own lane takes the frame: under the cap the ring is the old ring and the PCM, above it the last rate times channels samples; a duck sets target and step and leaves ring, head and gain; other lanes are untouched, and nothing happens when stopped |
| AudioMixing.AudioMixer.DropIdle | src/audio_alsa.cpp:218-225 | exactly the idle lanes without audio are dropped |
| AudioMixing.AudioMixer.MixOne | src/audio_alsa.cpp:171-207 | to each output frame exactly the lane's signal at that place is added, on the line between its ring's samples, and nothing after its end; the lane moves on by one block |
| AudioMixing.SharesAre | src/audio_alsa.cpp:171-198 | a lane's share of each output frame is its signal there, and silence exactly from the end of its data on |
| AudioMixing.AudioMixer.MixAll | src/audio_alsa.cpp:247-249 | the accumulator holds every lane's share once and every lane has moved on |
| AudioMixing.AudioMixer.MixBlock | src/audio_alsa.cpp:244-259 | each output sample is the saturated sum of all lanes' shares, whatever the order |
| AudioMixing.LoneStreamPassesThrough | src/audio_alsa.cpp:244-259 | the output of a lone 44100 Hz stereo stream at full gain is the next frames received, in order, then zeros after the last |
| AudioMixing.SaturateAll | src/audio_alsa.cpp:254-259 | every sample is clamped to 16 bits: a sum above the range becomes 32767, one below it -32768, any other stays |
| Transfers.InvStep | src/dongle.cpp:26-89 | each step of each thread keeps exact counters, one callback at a time, one free per buffer, the phases of stop, and at most one missed cancellation |
| Transfers.CountersAlwaysExact | src/dongle.cpp:63-89 | in every interleaving the RX counter is the number of transfers submitted or in their callback, and the TX counter the number of sends between increment and decrement |
| Transfers.FreedRingIsQuiet | src/dongle.cpp:145-168 | from the first free on, whatever else runs, no transfer is in flight and no callback runs; each transfer has been freed once stop returns |
| Transfers.BuffersFreedOnce | src/dongle.cpp:26-60 | each TX buffer is freed at most once, never while with libusb, and exactly once when its send is over |
| Transfers.LoopOutlivesTheRing | src/dongle.cpp:170-176 | the event loop ends only after stop was called and every RX callback has returned |
| Transfers.AtMostOneEscapes | src/dongle.cpp:155-156 | after the cancel loop at most one transfer is in flight uncancelled, the one being resubmitted when it was passed |
| Transfers.StopWaitsForTheDevice | src/dongle.cpp:155-158 | while a transfer is in flight and unanswered stop does not get past the join |
| Transfers.ATransferCanEscape | src/dongle.cpp:79-88 | a run in which a callback that read the flag before stop resubmits after its cancellation |
| Transfers.ASendCanOutliveTheLoop | src/dongle.cpp:33-50 | a run in which a send that read the flag before stop is submitted after the event loop ended |
| Shutdown.CancellationCanFailIff | src/dongle.cpp:79-156 | when stop clears the flag, some continuation gets past the cancel loop with an uncancelled transfer in flight, if and only if a callback is between reading the flag and resubmitting |
| Shutdown.DrainsIff | src/dongle.cpp:33-60 | every continuation in which the loop exits has all sends over and all buffers freed once, if and only if no send is between testing the flag and its count when stop clears it |
| Shutdown.StopDoesItsWork | src/dongle.cpp:145-176 | both conditions for every run from a successful start |
| Transfers.Dongle.constructor | src/dongle.cpp:96-120 | the state a successful start leaves |
| Transfers.Dongle.RxComplete | src/dongle.cpp:63-89 | a transfer is resubmitted after data or timeout while running, otherwise given up with one decrement; these are steps of the machine |
| Transfers.Dongle.TxComplete | src/dongle.cpp:26-31 | one free and one decrement |
| Transfers.Dongle.Send | src/dongle.cpp:33-60 | an accepted buffer is counted, a refused one is freed at once and not counted |
| Transfers.Dongle.CancelRing | src/dongle.cpp:145-156 | the flag is cleared and every transfer libusb has is cancelled |
| Transfers.Dongle.FreeRing | src/dongle.cpp:160-167 | every transfer is freed, and none was in use |
| Vaapi.InvStep | src/vaapi_decoder_source.cpp:126-341 | decode and both acquires, whatever fails in them, keep descriptors, clones, retain ring and cache in order |
| Vaapi.FramebuffersAreReused | src/vaapi_decoder_source.cpp:202-208 | over any run a surface once in the framebuffer cache stays there with the same framebuffer |
| Vaapi.ImportCases | src/vaapi_decoder_source.cpp:191-264 | an import shows the surface's cached framebuffer, or a new one for a new surface, locks the first format in and pins the frame; a frame of another size, or one whose framebuffer cannot be made, is let go |
| Vaapi.PromotionCases | src/vaapi_decoder_source.cpp:279-341 | a native acquire lends the pending frame with its own descriptors plane by plane, or lets a frame of another size go |
| Vaapi.EverythingReleasedOnce | src/vaapi_decoder_source.cpp:56-72 | after any run and the destructor every duplicated descriptor has been closed and every clone freed exactly once |
| Vaapi.LentFdsStayOpen | src/vaapi_decoder_source.cpp:312-341 | descriptors lent by a native acquire stay open until the next one |
| Vaapi.ScreenIsPinned | src/vaapi_decoder_source.cpp:176-264 | whenever the last promotion was an import, so always in KMS-only runs, the current framebuffer is the cached one of the newest retained surface; it and up to three before it are pinned |
| Vaapi.NativePromotionKeepsScreenIff | src/vaapi_decoder_source.cpp:279-310 | a native promotion leaves the current framebuffer that of the newest retained surface, if and only if it promotes the surface that framebuffer is cached for |
| Vaapi.MixingLosesTheScreen | src/vaapi_decoder_source.cpp:302-309 | a run of both paths in which it does not |
| Vaapi.VaapiDecoderSource.constructor | src/vaapi_decoder_source.cpp:48-54 | nothing is held and the format is not locked in |
| Vaapi.VaapiDecoderSource.OnDecoded | src/vaapi_decoder_source.cpp:126-171 | the new frame becomes pending with the descriptors and the clone made for it and the old one is released, or the new one is undone when it cannot be pinned |
| Vaapi.OtherSizesAreDropped | src/vaapi_decoder_source.cpp:176-200 | a pending frame of another size than the one locked in leaves no trace in either acquire |
| Vaapi.FormatStaysLocked | src/vaapi_decoder_source.cpp:247-252 | over any run a format locked in stays; all framebuffers ever cached have its size if and only if those cached when it was locked in have; a native frame of its size gives way only to others |
| Vaapi.ResolutionNeverChanges | src/vaapi_decoder_source.cpp:173-189 | from the start, when every frame carries a modifier, what is lent natively and what KMS shows have the size locked in |
| Vaapi.AFramebufferOfAnotherSize | src/vaapi_decoder_source.cpp:203-208 | a run with a frame without modifier in which a framebuffer of another size is shown |
| Vaapi.VaapiDecoderSource.RetainPending | src/vaapi_decoder_source.cpp:255-263 | the clone joins the ring and what falls out above four is freed |
| Vaapi.VaapiDecoderSource.Acquire | src/vaapi_decoder_source.cpp:191-264 | a cached surface's framebuffer is returned with the cache unchanged; a new surface's is added and returned; when it cannot be added or the size differs nothing changes on screen |
| Vaapi.VaapiDecoderSource.AcquireNativeFrame | src/vaapi_decoder_source.cpp:279-341 | lends the pending frame with its own descriptors, all open, and closes those lent before; otherwise the last lent frame again |
| Vaapi.VaapiDecoderSource.Destroy | src/vaapi_decoder_source.cpp:56-72 | everything still held is released, each release being of something open or alive |
| V4l2Pump.InvStep | src/v4l2_decoder_source_adapter.cpp:143-229 | each section of producer and pump keeps queue, held chunk and deliveries in order |
| V4l2Pump.OrderedDelivery | src/v4l2_decoder_source_adapter.cpp:143-229 | in every interleaving delivered, held and queued chunks together are exactly the submitted ones not lost, in order; a chunk overflows only with sixteen newer ones behind it |
| V4l2Pump.CompleteIffKeptUp | src/v4l2_decoder_source_adapter.cpp:202-229 | everything submitted is delivered, in hand or queued in order, if and only if no push met a full queue and the decoder refused nothing |
| V4l2Pump.V4l2DecoderSourceAdapter.SubmitBitstream | src/v4l2_decoder_source_adapter.cpp:143-153 | ignored after failure or when empty; a full queue loses only its oldest chunk |
| V4l2Pump.V4l2DecoderSourceAdapter.Take | src/v4l2_decoder_source_adapter.cpp:204-211 | the front chunk becomes the held one |
| V4l2Pump.V4l2DecoderSourceAdapter.Offer | src/v4l2_decoder_source_adapter.cpp:212-228 | the held chunk is delivered, refused, or kept for EAGAIN only |
| V4l2Pump.V4l2DecoderSourceAdapter.FeedQueue | src/v4l2_decoder_source_adapter.cpp:202-230 | a willing decoder gets the held chunk and the whole queue; EAGAIN reorders and drops nothing |
| V4l2Pump.V4l2DecoderSourceAdapter.Fail | src/v4l2_decoder_source_adapter.cpp:175-199 | the pump ends with the failure flag set, which makes every later submit a no-op |
| Supervisor.CallbacksAlternate | src/dongle_manager.cpp:76-152 | after any polls the callbacks alternate starting with connect, and the wait is none or between 250 and 5000 ms |
| Supervisor.StuckDevice | src/dongle_manager.cpp:102-112 | n polls that find the dongle unclaimable, from any state between sessions, double the wait to its bound and reset once in three |
| Supervisor.StuckFromTheStart | src/dongle_manager.cpp:102-112 | from a clean start: wait min(250 times 2^(n-1), 5000), n/3 resets, n mod 3 failures |
| Supervisor.AbsentClearsTheSlate | src/dongle_manager.cpp:113-117 | any number of polls that find no dongle clear wait and failure count and nothing else |
| Supervisor.StuckAfterAbsence | src/dongle_manager.cpp:102-117 | after any history between sessions, then absence, n unclaimable polls leave the wait min(250 times 2^(n-1), 5000), n/3 more resets and n mod 3 failures |
| Supervisor.FlapsWaitTheSame | src/dongle_manager.cpp:98-145 | after any history a flap leaves the minimum wait and a good session none |
| Supervisor.FlapsInARow | src/dongle_manager.cpp:86-145 | n flaps in a row leave the minimum wait and 2n callbacks |
| Supervisor.DongleManager.constructor | src/dongle_manager.cpp:64-65 | disconnected, nothing alive |
| Supervisor.DongleManager.Connect | src/dongle_manager.cpp:86-101 | both objects exist and belong together, pacing is cleared, one callback |
| Supervisor.DongleManager.TearDown | src/dongle_manager.cpp:128-136 | the dongle goes before its device and nothing is left |
| Supervisor.DongleManager.PollForDongle | src/dongle_manager.cpp:77-118 | a disconnected pass is a step of the specification and leaves no stray device |
| Supervisor.DongleManager.WatchSession | src/dongle_manager.cpp:119-151 | a connected pass is a step of the specification |
| Supervisor.DongleManager.Supervise | src/dongle_manager.cpp:50-153 | the loop refines the specification, and at every destruction no existing dongle is left without its device |
| Supervisor.DongleManager.Stop | src/dongle_manager.cpp:23-36 | nothing is left alive |

## Left out

- Floating point: the mixer, gain, touch and fit compute in `double` or `float`; the model uses reals, so rounding error is not covered.
- Bit operations: shifts, masks and complements on 32-bit words are modelled as division, remainder and subtraction.
- Message types: the `MessageType` and `Command` enumerations and the dispatch of payloads are not modelled; a type is a 32-bit word.
- The other message builders (`send_number`, `send_open`, `send_box_settings` and so on) and the JSON and configuration text.
- Concurrent methods: a class method runs without interference. Where the source lets threads interleave inside a function, the interleavings are theorems about events on values, and the methods are proved to take those events.
- Transfers.Dongle.CancelRing: the wait for the heartbeat and event threads inside stop() is not a method; it is the step StopJoins, enabled once the loop has exited.
- Transfers: a start() that fails part way, for which the source has no cleanup, and the parser call inside the receive callback.
- libusb: cancelling a transfer that is not submitted is taken to do nothing, only cancelled transfers to come back cancelled, and callbacks to run only while the event thread handles events.
- Liveness: nothing is proved about threads or the device eventually moving on.
- Vaapi: the kernel is taken to give a new framebuffer a nonzero id and each duplicated descriptor an identity of its own.
- Vaapi: GEM handles, which the source does not close when adding a framebuffer fails; offsets and pitches are carried as plain data; screenshots.
- Vaapi.Coherent: promises nothing while the last promotion was a native one, because the source documents that a binary drives one of the two paths.
- Frames with more than four planes, for which the source's arrays have no room.
- V4l2Pump: the wake pipe, the poll timeout and the inner decoder's own buffers.
- Supervisor: time. Naps are not modelled; whether a session died inside the flap window is an input. The result of starting the dongle is ignored by the source and so by the model.
- AudioMixing: the clock that tells which lanes have been idle for three seconds is an input; the keep-alive pause and writing to ALSA with its recovery are not modelled.
- LaneLife.RefinesIdeal: requires whole stereo frames, because after an odd sample count left and right can change places in the source.
- Interpolation.OutputInterpolatesSignal: requires whole stereo frames, for the same reason.
- MixerEvents.LaneIsItsLife: requires whole stereo frames, because lives do; MixerEvents.StreamsAreApart does not.
- Gain.RampReachesTarget: counts gain steps, not seconds, because the source takes the step from the lane's rate but advances it once per output frame.
- BufferPool: swscale, DRM buffers and resolution changes; the scene is taken to release only what it acquired.
- Rotation.RotateNv12: the value DRM_MODE_ROTATE_0, which the source's dumb-buffer path does not treat as "no rotation", is not an input.
- TouchMapping: pairing of presses and releases; a press outside the video is dropped while its release is sent. The keyboard and the cursor plane are not modelled.
- Touch.FitInsidePanel: covers the fitted rectangle, not the fallback to native size when the hardware cannot scale.
- GpuIngest: YUV conversion, textures and shaders; a picture stands for a frame.
- The Wayland application and sinks, the microphone input, the probes and the scripts.
