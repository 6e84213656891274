# QuicView: a verified model

QuicView streams screens over QUIC. This project models the parts of it that carry state from call to call or bytes from
machine to machine, and proves what they keep over every run:

- the adaptive bitrate controller, from the eviction loop of its window and the exact measured rate to what it does in
  closed loop under load that is too high, too low or in balance (`Bitrate`, `BitrateWindow`, `BitrateControl`,
  `BitrateConvergence`, `BitrateRate`, `BitrateBand`);
- the exclusive-or delta codec between two machines with losses, one-sided resets and resolution changes, its framing
  on the wire and the pixel conversion in front of it (`Delta`, `DeltaLink`, `FrameHeaders`, `VideoStream`, `Convert`);
- the serving host, with its accept loop, viewer tasks, Ctrl+C, watch channel and atomic counters, as interleaved atomic
  steps, and what its counters and each viewer owe to the schedule (`Shutdown`, `Metrics`, `Serve`, `ServeSafety`,
  `ServeHistory`);
- the wall of virtual displays: registry, allocator, layout and bounding box (`Displays`, `VirtualDisplays`, `Wall`,
  `WallRegistry`, `WallTiling`, `WallHistory`);
- the power manager as a predicate on the calls made to it (`Power`, `PowerHistory`, `PowerCounts`);
- the binary form of input events, the mouse scaling arithmetic and the session handshake (`Wire`, `InputEvents`,
  `Mouse`, `Negotiation`).

Objects that the source updates in place are classes whose methods are proved against functions on values; what the
source promises is then proved about those functions over all runs. Integers are unbounded in Dafny, so the 32- and
64-bit wrap-around of a release build is written out (`Wrap32`, `Wrap64`, `% U32_SPAN`); a `usize` is taken as 64 bits.
`dafny verify dfyconfig.toml` checks everything.

Some promises of the source hold only under a condition. Where that is so the model keeps the code as it is and a lemma
states the exact condition:

- a shutdown trigger is lost, for signals made later as well, if no signal is alive to hear it
  (`Shutdown.ShutdownIffHeard`, `Shutdown.TriggerLost`); the serving host always keeps one alive
  (`ServeSafety.ShutdownReachesEveryone`);
- the sleeping list for power management is unfaithful as soon as a tick comes more than the timeout after a repeated
  registration of a display (`PowerCounts.ListingFaithfulIff`, `PowerCounts.RepeatFails`); without further
  registrations it stays faithful for good exactly if every repeated one came so late that no 64-bit time is overdue
  (`PowerCounts.ListingStaysFaithfulIff`);
- adding an address that is already on the wall leaks the display of the replaced client
  (`WallRegistry.RegistryInvariant`, `WallRegistry.OwnedIffNoRepeats`, `WallRegistry.RepeatLeaks`);
- a decoder that missed a packet or a reset stays wrong by everything that only one side has learned or forgotten since
  the last common keyframe, until that cancels or the frame size changes (`DeltaLink.MaskSinceKeyframe`,
  `DeltaLink.CorrectIffCancelled`, `DeltaLink.LossShows`);
- skip advice means over budget only while three times the target fits 64 bits; beyond that two small frames are
  enough for wrong advice (`BitrateControl.SkipMeansOver`);
- two pixels of a screen wider than 65535 can be scaled to the same position (`Mouse.InjectiveIffSmall`), and so can two
  opposite coordinates far off a tiny screen (`Mouse.OddUnlessCut`, `Mouse.CutCollides`).

docs/architecture.md and docs/api-reference.md describe other header fields, enum variants, negotiation states and a JSON
path for input events; the model follows the Rust sources.

The watch channel belongs to the asynchronous runtime, so its rules are assumptions of the model, stated in `Shutdown`: a
send with no live receiver stores nothing, a receiver is woken when the version differs from the one it has seen or the
last sender is gone, and subscribing counts the current version as seen. In the same way the byte buffers in `Wire` state
what the big-endian `put` and `get` calls do.

## Model

| member | source | states |
|---|---|---|
| Bitrate.BitrateController.constructor | crates/quicview-codec/src/bitrate.rs:24-33 | quality 80, an empty window, counters at zero |
| Bitrate.BitrateController.RecordFrame | crates/quicview-codec/src/bitrate.rs:36-46 | pushing, the eviction loop and the adjustment together change the whole state as one `Record` step |
| Bitrate.BitrateController.AdjustQuality | crates/quicview-codec/src/bitrate.rs:80-100 | one debounced decision on the measured rate, nothing else changes; a rate of at least three quarters of the target and at most the target leaves the quality alone and clears both counters |
| Bitrate.BitrateController.MeasuredBps | crates/quicview-codec/src/bitrate.rs:49-58 | the wrapping bits of the window over its duration, zero for fewer than two frames |
| Bitrate.BitrateController.SetTargetBps | crates/quicview-codec/src/bitrate.rs:71-73 | a new target; window, quality and both counters stay |
| Bitrate.BitrateController.ShouldSkipFrame | crates/quicview-codec/src/bitrate.rs:76-78 | skip is advised exactly when the measured rate exceeds half again the (wrapping) target: twice the rate above three times the target while that fits 64 bits |
| BitrateWindow.WindowIsRecent | crates/quicview-codec/src/bitrate.rs:36-46 | over any run with ordered timestamps the deque is exactly the recorded samples of the last two seconds, in order |
| BitrateWindow.RefinesArchive | crates/quicview-codec/src/bitrate.rs:36-58 | window, counters and quality always agree with a controller that stores its whole history and filters it |
| BitrateWindow.WindowIsSuffix | crates/quicview-codec/src/bitrate.rs:36-43 | for arbitrary timestamps the window is a nonempty suffix of the history, ending in the newest frame, with a recent enough front; and a sample is missing exactly if it was too old for some later frame by when everything before it was gone too |
| BitrateControl.AlwaysSound | crates/quicview-codec/src/bitrate.rs:80-100 | over every run, target changes included: quality is a multiple of 5 in [10, 100], the counters stay below 3 and 5 and at most one is nonzero |
| BitrateControl.RateLimit | crates/quicview-codec/src/bitrate.rs:80-100 | any stretch of any run lowers quality at most once in three frames and raises it at most once in five, up to the starting counters |
| BitrateControl.QualityIsStepCount | crates/quicview-codec/src/bitrate.rs:86-94 | the quality moves only by whole steps of five, as many as were counted |
| BitrateControl.RegulatorFollowsStreaks | crates/quicview-codec/src/bitrate.rs:16-19 | the counters are the lengths of the current streaks of equal verdicts, modulo 3 and 5, and the quality is what the streaks call for |
| BitrateControl.SkipMeansOver | crates/quicview-codec/src/bitrate.rs:76-82 | over all runs from a fresh controller, every skip advice means over budget if and only if three times the target fits 64 bits |
| BitrateControl.TargetIsLatest | crates/quicview-codec/src/bitrate.rs:71-73 | after any run the target is the one last set |
| BitrateControl.TargetStays | crates/quicview-codec/src/bitrate.rs:24-33 | and without a change the one it was made with |
| BitrateRate.MeasuredExactly | crates/quicview-codec/src/bitrate.rs:49-58 | for every window the rate is the whole part of the total of all its bytes, first frame included, in milli-bits modulo 2^64 over its duration of at least one millisecond; zero for fewer than two frames |
| BitrateRate.TwoSeconds | crates/quicview-codec/src/bitrate.rs:36-46 | on an ordered clock the window is the history from the first frame of the last 2000 milliseconds on |
| BitrateRate.VerdictByRate | crates/quicview-codec/src/bitrate.rs:80-99 | over is above the target, under is at least one below three quarters of it, and within budget is everything between |
| BitrateRate.WithinHolds | crates/quicview-codec/src/bitrate.rs:96-99 | a frame measured between three quarters of the target and the target leaves the quality as it is and both counters at zero |
| BitrateRate.SkipsExactly | crates/quicview-codec/src/bitrate.rs:76-78 | skip advice means that twice the rate is above three times the target |
| BitrateRate.OverWithoutSkip | crates/quicview-codec/src/bitrate.rs:76-82 | a controller reached by two frames that is over budget and not told to skip |
| BitrateRate.JudgedByBytes | crates/quicview-codec/src/bitrate.rs:36-99 | the verdict on any frame of any ordered run, as a comparison of the bytes and the duration of the last two seconds with the target |
| BitrateConvergence.MilliBitsExactly | crates/quicview-codec/src/bitrate.rs:56-57 | the wrapping sum and products give the true number exactly when it fits 64 bits |
| BitrateConvergence.HeavyIsOver | crates/quicview-codec/src/bitrate.rs:49-58 | any window of large frames with small gaps measures over target, through sum, duration and floor division |
| BitrateConvergence.LightIsUnder | crates/quicview-codec/src/bitrate.rs:49-58 | any window of small frames with large gaps measures under three quarters of the target |
| BitrateConvergence.SustainedOverload | crates/quicview-codec/src/bitrate.rs:36-100 | from any sound controller with an aged-out window, sustained load lowers quality by exactly one step per three frames after the first, down to 10 |
| BitrateConvergence.SustainedUnderload | crates/quicview-codec/src/bitrate.rs:36-100 | sustained low load raises quality by exactly one step per five frames, up to 100 |
| BitrateConvergence.FloorReached | crates/quicview-codec/src/bitrate.rs:24-46 | from a fresh controller the quality is max(10, 80 - 5 floor(n/3)), and 10 exactly from frame 43 on |
| BitrateConvergence.CeilingReached | crates/quicview-codec/src/bitrate.rs:24-46 | from a fresh controller the quality is min(100, 80 + 5 floor(n/5)), and 100 exactly from frame 20 on |
| BitrateConvergence.OverloadTakesOver | crates/quicview-codec/src/bitrate.rs:36-100 | from any controller reached on an ordered clock, once large close frames span more than two seconds every verdict is over budget, quality falls by one step per three frames from where it was, and is 10 from an exact number of further frames on |
| BitrateConvergence.UnderloadTakesOver | crates/quicview-codec/src/bitrate.rs:36-100 | the same upwards for small distant frames: one step per five frames, 100 from an exact number of further frames on |
| BitrateBand.BandHolds | crates/quicview-codec/src/bitrate.rs:36-100 | from any controller reached on an ordered clock, once frames whose sizes and gaps keep the rate between three quarters of the target and the target span more than two seconds, the quality stays where it is and both counters at zero |
| Delta.DeltaCodec.constructor | crates/quicview-codec/src/delta.rs:19-21 | no reference |
| Delta.DeltaCodec.Encode | crates/quicview-codec/src/delta.rs:36-57 | the packet is the frame xor the reference of its length (nothing if there is none), and the frame becomes the reference |
| Delta.DeltaCodec.Decode | crates/quicview-codec/src/delta.rs:61-82 | the frame is the packet xor the reference of its length, and becomes the reference |
| Delta.DeltaCodec.Reset | crates/quicview-codec/src/delta.rs:24-26 | no reference is left |
| DeltaLink.Transmit | crates/quicview-codec/src/delta.rs:36-82 | one frame through two codec objects is one delivery step of the link between them |
| Delta.XorCancel | crates/quicview-codec/src/delta.rs:48-52 | applying the same delta twice gives the frame back |
| Bytes.XorBitwise | crates/quicview-codec/src/delta.rs:48-52 | each bit of the exclusive or is the sum of the two bits without carry |
| DeltaLink.DeliverLaw | crates/quicview-codec/src/delta.rs:36-82 | a delivered frame arrives xor the mask of its length, keeps that mask and zeroes every other |
| DeltaLink.LoseLaw | crates/quicview-codec/src/delta.rs:36-57 | a lost packet is xored into the mask of its length; elsewhere the decoder's reference becomes the mask |
| DeltaLink.ResetLaw | crates/quicview-codec/src/delta.rs:24-26 | a reset of one side turns the other side's reference into the mask, a reset of both clears it |
| DeltaLink.MaskIsResidue | crates/quicview-codec/src/delta.rs:24-82 | over any run of deliveries, losses and resets with frames of any lengths, the mask is the exclusive or of all that only one side learned or forgot since the last delivery of another length |
| DeltaLink.MaskSinceKeyframe | crates/quicview-codec/src/delta.rs:24-82 | after a common keyframe, a frame arrives xor the sum of all that was one-sided since, hence unchanged exactly when that sum cancels |
| DeltaLink.CorrectIffCancelled | crates/quicview-codec/src/delta.rs:24-82 | all deliveries of a run are right exactly when everything one-sided has cancelled by each of them |
| DeltaLink.SyncAfterDelivery | crates/quicview-codec/src/delta.rs:61-82 | after a delivery both sides agree for all lengths exactly when that delivery was right |
| DeltaLink.NewLengthHeals | crates/quicview-codec/src/delta.rs:43-47 | a frame of a length neither side remembers arrives and ends every disagreement |
| DeltaLink.LosslessRun | crates/quicview-codec/src/delta.rs:6-13 | without loss or reset every frame of any mix of sizes is reconstructed |
| DeltaLink.MaskConservation | crates/quicview-codec/src/delta.rs:36-82 | on a stream of one frame size the mask is the old mask xor all lost packets |
| DeltaLink.BurstLoss | crates/quicview-codec/src/delta.rs:36-82 | after a burst of losses every later frame is off by last lost xor last seen, so it heals exactly when these are equal |
| DeltaLink.LossShows | crates/quicview-codec/src/delta.rs:36-82 | a link on which one lost packet makes the next frame arrive wrong |
| Convert.BgraToRgba | crates/quicview-codec/src/convert.rs:4-15 | in place, blue and red of every pixel are exchanged; a length not divisible by four is refused and the buffer left alone |
| Convert.RgbaToRgb | crates/quicview-codec/src/convert.rs:18-31 | the color bytes of every pixel in order, or a refusal |
| Convert.PixelSwapped | crates/quicview-codec/src/convert.rs:11-13 | bytes 0 and 2 of every pixel are exchanged, bytes 1 and 3 stay |
| Convert.ColorKept | crates/quicview-codec/src/convert.rs:25-30 | byte 3p + c of the result is byte 4p + c of the input |
| Convert.SwapTwice | crates/quicview-codec/src/convert.rs:11-13 | converting twice gives the buffer back |
| Convert.SwapPacket | crates/quicview-codec/src/convert.rs:4-15 | encoding a converted frame gives the converted packet, and decoding it the converted frame |
| Convert.WithoutAlphaXor | crates/quicview-codec/src/convert.rs:25-30 | dropping alpha commutes with the delta |
| Convert.SwapCommutesWithRun | crates/quicview-codec/src/convert.rs:4-15 | on any run with losses and resets, converting the frames first gives the converted packets, the converted outputs and the converted references |
| FrameHeaders.Encode | crates/quicview-protocol/src/frame.rs:53-62 | appends the 24-byte image of the header |
| FrameHeaders.Decode | crates/quicview-protocol/src/frame.rs:65-98 | outcome and remaining bytes, for every input, refusals included |
| FrameHeaders.ImageFields | crates/quicview-protocol/src/frame.rs:29-34 | every field sits at its documented offset, the tags have their own numbers and the reserved bytes are zero |
| FrameHeaders.RoundTrip | crates/quicview-protocol/src/frame.rs:53-98 | decoding inverts encoding whatever follows, exactly for payloads of at most 64 MiB; larger ones are refused by size |
| FrameHeaders.CutIsInvalid | crates/quicview-protocol/src/frame.rs:65-71 | a header cut short is refused with what it needs and what is there, and nothing is consumed |
| FrameHeaders.UnknownTags | crates/quicview-protocol/src/frame.rs:74-88 | an unknown kind, else an unknown pixel format, is refused by its byte before the payload length is looked at; the cursor stops behind it |
| FrameHeaders.AcceptsOnlyImages | crates/quicview-protocol/src/frame.rs:65-98 | up to the two reserved bytes, exactly the images of headers of at most 64 MiB are accepted |
| FrameHeaders.NormalForm | crates/quicview-protocol/src/frame.rs:53-98 | an accepted header re-encodes to its own bytes with the reserved two zeroed |
| FrameHeaders.Stable | crates/quicview-protocol/src/frame.rs:53-98 | decode, encode, decode equals decode |
| VideoStream.SendFrame | docs/architecture.md:127-133 | delta encoding, header and payload together append exactly the bytes of one frame |
| VideoStream.ReceiveFrame | docs/architecture.md:127-133 | header, payload split and delta decoding together read exactly one frame; a refusal leaves the cursor behind the header and the decoder as it was, or reset if it was to be |
| VideoStream.PacketOnWire | docs/architecture.md:127-133 | behind the header comes the frame itself after a reset or for a new frame size, and the delta otherwise, byte by byte |
| VideoStream.FrameOffWire | docs/architecture.md:127-133 | the receiver takes exactly the payload and combines it with its reference under the same condition |
| VideoStream.CutFrame | docs/architecture.md:127-133 | a frame cut short behind its header is refused with what it needs and what is there |
| VideoStream.OneFrame | crates/quicview-protocol/src/frame.rs:48-98 | one frame and every field of its header survive the wire if it is at most 64 MiB, and it is refused otherwise |
| VideoStream.StreamRoundTrip | docs/architecture.md:127-133 | any list of frames of any sizes, with resets on both sides at the same places, decodes from the concatenated stream with nothing left over |
| InputEvents.Encode | crates/quicview-protocol/src/input.rs:69-108 | appends the image of the event |
| InputEvents.Decode | crates/quicview-protocol/src/input.rs:111-173 | outcome and remaining bytes, for every input, refusals included |
| InputEvents.ButtonPacking | crates/quicview-protocol/src/input.rs:75-90 | the sentinel is no packed button, and packing is one to one onto the accepted bytes |
| InputEvents.ImageShape | crates/quicview-protocol/src/input.rs:69-108 | an event occupies 10, 7 or 9 bytes by its tag |
| InputEvents.ImageFields | crates/quicview-protocol/src/input.rs:69-108 | every field at its offset, with the numbers of tags, buttons and actions and the byte for no button |
| InputEvents.RoundTrip | crates/quicview-protocol/src/input.rs:69-173 | decoding inverts encoding whatever follows and consumes exactly the image |
| InputEvents.AcceptsOnlyImages | crates/quicview-protocol/src/input.rs:111-173 | up to the lenient key action, exactly what starts with the image of an event is accepted |
| InputEvents.NormalForm | crates/quicview-protocol/src/input.rs:111-173 | an accepted event re-encodes to the bytes consumed, except that a key action other than 1 becomes 0 |
| InputEvents.Stable | crates/quicview-protocol/src/input.rs:69-173 | decode, encode, decode equals decode |
| InputEvents.CutIsTruncated | crates/quicview-protocol/src/input.rs:118-166 | every proper prefix of an event is refused, as truncated by its kind after its tag, or as empty |
| InputEvents.UnknownNumbers | crates/quicview-protocol/src/input.rs:111-173 | an unknown tag and an unknown button are refused by number; what is consumed ends behind the tag or the event |
| InputEvents.PrefixFree | crates/quicview-protocol/src/input.rs:62-108 | no event's bytes start another event's bytes |
| InputEvents.StreamRoundTrip | crates/quicview-protocol/src/input.rs:69-173 | any concatenation of encoded events decodes to exactly those events |
| InputEvents.StreamInjective | crates/quicview-protocol/src/input.rs:69-108 | two different lists of events never share their bytes |
| Shutdown.ShutdownController.New | crates/quicview/src/shutdown.rs:23-26 | a controller and a signal on one fresh channel that is not shut down |
| Shutdown.ShutdownController.Trigger | crates/quicview/src/shutdown.rs:29-31 | the value becomes true and the version advances if any signal is alive; otherwise nothing happens |
| Shutdown.ShutdownController.Signal | crates/quicview/src/shutdown.rs:34-38 | a new signal that counts as a receiver and has seen the current version |
| Shutdown.ShutdownSignal.Clone | crates/quicview/src/shutdown.rs:16-19 | a further receiver that has seen what the original has seen |
| Shutdown.ShutdownSignal.PollWait | crates/quicview/src/shutdown.rs:49-56 | an undisturbed poll is ready exactly when shutdown is visible or all controllers are gone, otherwise it blocks; it is four atomic steps of the waiter |
| Shutdown.ShutdownIffHeard | crates/quicview/src/shutdown.rs:12-38 | over any use of the channel, clones included, shutdown is visible exactly when some trigger had a listener |
| Shutdown.HandlesCounted | crates/quicview/src/shutdown.rs:10-38 | over any use with live handles the channel counts exactly the signals and the controllers made and not dropped |
| Shutdown.ShutdownByHandles | crates/quicview/src/shutdown.rs:10-38 | with live handles, shutdown is visible exactly when some trigger came while a signal was alive |
| Shutdown.TriggerLost | crates/quicview/src/shutdown.rs:28-38 | a run in which a trigger is lost to a signal made later |
| Shutdown.NoLostWakeup | crates/quicview/src/shutdown.rs:16-56 | in any interleaving a waiter that has seen any version, a clone or one whose `wait` was dropped and called anew, is never blocked while shutdown is visible and returns within two of its steps |
| Shutdown.NoFalseAlarm | crates/quicview/src/shutdown.rs:49-56 | a waiter has returned only if shutdown is visible or every controller is gone |
| Metrics.MetricsInner.ConnectionOpened | crates/quicview/src/metrics.rs:55-62 | two wrapping counter updates, active first |
| Metrics.MetricsInner.ConnectionClosed | crates/quicview/src/metrics.rs:64-68 | one wrapping decrement of the active counter |
| Metrics.MetricsInner.RecordError | crates/quicview/src/metrics.rs:70-72 | one wrapping increment of the error counter |
| Metrics.MetricsInner.RecordFrameSent | crates/quicview/src/metrics.rs:43-46 | one frame and its bytes are added, wrapping; nothing else changes |
| Metrics.MetricsInner.RecordFrameReceived | crates/quicview/src/metrics.rs:48-53 | the same for the other direction |
| Metrics.ThroughputOfRun | crates/quicview/src/metrics.rs:43-53 | after any run of frames in both directions each of the four counters is its own sum modulo 2^64 |
| Metrics.MetricsInner.TakeSnapshot | crates/quicview/src/metrics.rs:74-85 | the given uptime and all seven counters as loaded |
| ServeSafety.CountersConsistent | crates/quicview-cli/src/main.rs:79-117 | in every interleaving: active is the number of connections not closed, at most the total plus one while opening, errors at most total, closing never underflows, the final snapshot is consistent |
| ServeHistory.CountersFollowSchedule | crates/quicview-cli/src/main.rs:79-110 | in every interleaving errors is the number of sessions that ended in an error while served, up to those about to be recorded; total is the connections that came in, and active those less the ones closed, up to the one being opened |
| ServeHistory.ViewerFate | crates/quicview-cli/src/main.rs:90-103 | each viewer counts as an error exactly when its session ended in one, and is served until its session ends or shutdown is visible, not longer |
| ServeHistory.ShutdownIffCtrlC | crates/quicview-cli/src/main.rs:67-75 | shutdown is visible exactly when Ctrl+C came and waiting for it had not failed before |
| ServeSafety.SnapshotLoads | crates/quicview/src/metrics.rs:74-85 | each number of the final snapshot is the counter at the moment of its own load, loaded in order after the loop was left |
| ServeSafety.ShutdownReachesEveryone | crates/quicview-cli/src/main.rs:67-110 | in every interleaving Ctrl+C takes effect, nobody stays blocked after it, and the loop is over only if shutdown is visible or accepting failed |
| ServeSafety.FailedIffAcceptFails | crates/quicview-cli/src/main.rs:81-82 | the command has failed exactly when some accept failed while the loop was selecting |
| ServeSafety.DrainTask | crates/quicview-cli/src/main.rs:90-103 | once shutdown is visible, a viewer scheduled four times has closed its connection, whatever else is scheduled |
| ServeSafety.DrainedIsZero | crates/quicview-cli/src/main.rs:90-103 | outside an opening, the active counter is zero exactly when every viewer has closed |
| ServeSafety.LoopBreaks | crates/quicview-cli/src/main.rs:79-117 | once shutdown is visible and nothing more comes in, a selecting loop is left within two of its steps and the final snapshot is reached from anywhere within eight, whatever the viewers do in between |
| ServeSafety.HostDrains | crates/quicview-cli/src/main.rs:67-117 | eight such steps of the loop and then four of every viewer leave the command finished, every connection closed and the active counter at zero |
| Displays.LeastEnclosing | crates/quicview-protocol/src/display.rs:111-130 | a rectangle contains every display exactly when it contains the bounding box |
| Displays.OrderIrrelevant | crates/quicview-protocol/src/display.rs:111-130 | the box depends only on which entries there are |
| Displays.BoxShifts | crates/quicview-protocol/src/display.rs:111-130 | moving all displays moves the box and keeps its size |
| Displays.EmptyIffNone | crates/quicview-protocol/src/display.rs:111-115 | for displays that show anything the box is the empty one at zero exactly when there are none |
| VirtualDisplays.StubVirtualDisplay.constructor | crates/quicview-capture/src/virtual_display.rs:41-46 | no displays, ids from 100 |
| VirtualDisplays.StubVirtualDisplay.Create | crates/quicview-capture/src/virtual_display.rs:56-65 | returns the next id and appends the display |
| VirtualDisplays.StubVirtualDisplay.Resize | crates/quicview-capture/src/virtual_display.rs:67-79 | the first display with the id gets the resolution and nothing else changes, or the id is reported missing |
| VirtualDisplays.StubVirtualDisplay.Destroy | crates/quicview-capture/src/virtual_display.rs:81-89 | all displays with the id go, or the id is reported missing |
| VirtualDisplays.WithoutOne | crates/quicview-capture/src/virtual_display.rs:81-89 | among distinct ids, destroying removes exactly one display |
| VirtualDisplays.WithoutAt | crates/quicview-capture/src/virtual_display.rs:81-89 | and keeps the others in order |
| Wall.DisplayWall.constructor | crates/quicview-capture/src/wall.rs:32-37 | no clients and an allocator of its own |
| Wall.DisplayWall.AddClient | crates/quicview-capture/src/wall.rs:40-57 | the client gets a new display with its resolution and is stored with its cell under its address, replacing an earlier one |
| Wall.DisplayWall.RemoveClient | crates/quicview-capture/src/wall.rs:60-65 | the client and its display go; an error exactly when the allocator does not know the display |
| Wall.DisplayWall.Layout | crates/quicview-capture/src/wall.rs:68-80 | one entry for each client, in some order |
| WallRegistry.RegistryInvariant | crates/quicview-capture/src/wall.rs:40-65 | over every run clients have distinct live displays, ids are issued in sequence, and live displays exceed clients by the repeated registrations |
| WallRegistry.RemovalNeverFails | crates/quicview-capture/src/wall.rs:60-65 | removing a client never reports an error |
| WallRegistry.IdsNeverReused | crates/quicview-capture/src/virtual_display.rs:61-64 | a later registration always gets a larger id |
| WallRegistry.OwnedIffNoRepeats | crates/quicview-capture/src/wall.rs:47-55 | every live display has a client exactly when no present address was added again |
| WallRegistry.RepeatLeaks | crates/quicview-capture/src/wall.rs:47-55 | after any run, adding a present address leaves a live display without a client |
| WallRegistry.LeakExample | crates/quicview-capture/src/wall.rs:47-55 | the shortest run that leaks |
| WallHistory.ClientByHistory | crates/quicview-capture/src/wall.rs:40-65 | after any run an address is on the wall exactly when its last event was a registration, with the cell, the resolution and the id of that one |
| WallHistory.DisplayOfLastAdd | crates/quicview-capture/src/wall.rs:48 | the one live display with the id of a client has the resolution of its last registration, at 60 Hz |
| WallHistory.ClientShown | crates/quicview-capture/src/wall.rs:68-80 | on the 32-bit plane the layout has one entry for each client, with the id and resolution of its last registration, at its cell times that resolution |
| WallTiling.DisjointIffDistinct | crates/quicview-capture/src/wall.rs:68-80 | on a uniform wall the rectangles are pairwise disjoint exactly when no two clients share a cell |
| WallTiling.BoxIsSpan | crates/quicview-capture/src/wall.rs:68-80 | the bounding box is the span of cells scaled by the resolution |
| WallTiling.AreaBound | crates/quicview-capture/src/wall.rs:68-80 | clients times resolution is at most the box area, with equality exactly when every cell of the span is occupied |
| WallTiling.LayoutBoxUnique | crates/quicview-capture/src/wall.rs:69-78 | whatever order the hash map yields, the box is the same |
| Power.PowerManager.constructor | crates/quicview-session/src/power.rs:27-32 | the timeout and an empty table |
| Power.PowerManager.Register | crates/quicview-session/src/power.rs:35-37 | an active entry at the end of the table |
| Power.PowerManager.Touch | crates/quicview-session/src/power.rs:40-48 | the first entry of the display becomes active now |
| Power.PowerManager.Tick | crates/quicview-session/src/power.rs:52-61 | every overdue active entry falls asleep, and exactly these are reported, in order |
| Power.PowerManager.Wake | crates/quicview-session/src/power.rs:64-75 | like a touch, and an error exactly for an unknown display |
| Power.PowerManager.State | crates/quicview-session/src/power.rs:78-83 | the state of the first entry of the display, and none exactly for an unknown one |
| Power.SleepingInOrder | crates/quicview-session/src/power.rs:86-92 | the sleeping list holds the ids of exactly the sleeping entries, once each and in table order |
| Power.ReportedInOrder | crates/quicview-session/src/power.rs:52-61 | a tick reports exactly the active entries older than the timeout, once each and in table order |
| PowerHistory.StateByHistory | crates/quicview-session/src/power.rs:35-83 | after any calls at any times a display is asleep exactly when some tick came too long after its last activity, else active; never waking |
| PowerCounts.ReportsConserved | crates/quicview-session/src/power.rs:40-92 | reports of a display minus touches and wakes that found it asleep is its number of entries on the sleeping list |
| PowerCounts.NeverWaking | crates/quicview-session/src/power.rs:12-14 | no entry is ever in the waking state |
| PowerCounts.SleepersOf | crates/quicview-session/src/power.rs:78-92 | unless an entry shadowed by an earlier one of its id is asleep, the sleeping list holds a display once if its state is asleep and not at all otherwise |
| PowerCounts.ShadowedHistory | crates/quicview-session/src/power.rs:35-61 | a repeated registration keeps its time, whatever is touched or woken, and is asleep exactly when a tick came more than the timeout after it |
| PowerCounts.ListingFaithfulIff | crates/quicview-session/src/power.rs:35-92 | after any calls the sleeping list is faithful exactly when no tick came more than the timeout after a repeated registration |
| PowerCounts.OnceListsFaithfully | crates/quicview-session/src/power.rs:35-92 | in particular always if every display is registered once |
| PowerCounts.ListingStaysFaithfulIff | crates/quicview-session/src/power.rs:20-92 | it stays faithful under every continuation without registrations exactly when every repeated registration came so late that no 64-bit time is overdue for it |
| PowerCounts.RepeatFails | crates/quicview-session/src/power.rs:35-92 | a run of three calls after which the list is unfaithful |
| PowerCounts.ScheduleIndependence | crates/quicview-session/src/power.rs:52-61 | any schedule of ticks leaves the table of one tick at its latest time, and its reports are a permutation of that tick's |
| Mouse.Quotient | crates/quicview-input/src/sendinput.rs:36-39 | an on-screen coordinate is scaled into [0, 65534], rounding down |
| Mouse.Monotone | crates/quicview-input/src/sendinput.rs:36-39 | scaling keeps order |
| Mouse.Recovered | crates/quicview-input/src/sendinput.rs:36-39 | on at most 65535 pixels the coordinate is recovered by rounding up |
| Mouse.InjectiveIffSmall | crates/quicview-input/src/sendinput.rs:36-39 | scaling is strictly monotone exactly on screens of at most 65535 pixels |
| Mouse.OddUnlessCut | crates/quicview-input/src/sendinput.rs:36-39 | two opposite coordinates are scaled to opposite positions, toward zero, exactly unless the low 32 bits of the quotient are 0x80000000 |
| Mouse.CutCollides | crates/quicview-input/src/sendinput.rs:36-39 | two opposite coordinates that are scaled to the same position |
| Mouse.Odd | crates/quicview-input/src/sendinput.rs:36-39 | in particular up to 32768 screens away from the origin |
| Mouse.FarQuotient | crates/quicview-input/src/sendinput.rs:36-39 | beyond the screen the quotient is rounded down too, up to 32768 screens away |
| Mouse.MoveInRange | crates/quicview-input/src/sendinput.rs:36-39 | a move is refused exactly for metrics that are not positive, and one on the screen gives both coordinates in range, rounded down |
| Negotiation.Negotiator.constructor | crates/quicview-session/src/negotiation.rs:26-30 | awaiting an offer |
| Negotiation.Negotiator.ReceiveOffer | crates/quicview-session/src/negotiation.rs:37-48 | succeeds only while awaiting an offer, otherwise changes nothing |
| Negotiation.Negotiator.SelectDisplays | crates/quicview-session/src/negotiation.rs:52-65 | succeeds only with an offer, otherwise changes nothing |
| Negotiation.Negotiator.AcceptSelection | crates/quicview-session/src/negotiation.rs:68-78 | returns the selection and moves on, or restores the state |
| Negotiation.Negotiator.RejectSession | crates/quicview-session/src/negotiation.rs:81-83 | rejected from any state |
| Negotiation.HandshakeInOrder | crates/quicview-session/src/negotiation.rs:37-83 | in every run the successful calls are a prefix of offer, select, accept; they determine the state; rejection is final, for the reason last given; acceptance returns the selected list |
| Negotiation.StateByCalls | crates/quicview-session/src/negotiation.rs:37-78 | without a rejection the state depends only on the first offer, the first selection after it and the first acceptance after that |

## Left out

- Serve.Next: the accept loop and the viewer tasks are steps of a state machine on values instead of methods, because
  their point is the interleaving; memory is sequentially consistent, so effects of relaxed atomics are not captured.
- Serve.TaskNext: a viewer drops its signal in the same step that counts its connection as closed; when the command
  returns the runtime cancels the viewers, while the model lets them go on.
- WallRegistry.RegistryInvariant: assumes that fewer than 2^32 - 100 clients were ever added, so that the 32-bit ids last.
- ServeSafety.LoopBreaks: says nothing of a loop that keeps accepting connections, because the select may prefer them.
- ServeSafety.CountersConsistent: assumes fewer than 2^64 - 1 connections, so that the counters cannot wrap.
- ServeHistory.CountersFollowSchedule: assumes the same.
- WallHistory.ClientShown: assumes that the ids last, and that the client's corner has 32-bit coordinates.
- Mouse.FarQuotient: says nothing of quotients that do not fit 32 bits, which the cut changes.
- WallTiling.BoxIsSpan: assumes that the pixels of every cell have 32-bit coordinates.
- BitrateConvergence.SustainedOverload: assumes that two seconds of frames stay below 2^64 / 8000 bytes.
- BitrateBand.BandHolds: assumes the same, and that three times the target fits 64 bits; beyond that the band wraps.
- FrameHeaders.FrameHeader: the frame kind is carried but, as in the source, no decoder consults it.
- Serve.LoopAt: of the final snapshot only the three loads of the connection counters are steps; the clock and the
  counters of frames and bytes, which the serving host never changes, are not.
- The text form of the metrics: no property beyond its numbers.
- Scroll scaling and the other injected input: floating point and foreign calls; on the wire a float is its bit pattern.
- Transport, certificates, capture, rendering, discovery, configuration, JSON and the foreign function interface: thin
  layers over libraries.
- Texts of error messages: each is a constructor that carries the values the text shows.
- Any claim that quality recovers while a caller skips frames: the measurement changes only when a frame is recorded.
