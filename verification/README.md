# Greaseweazle firmware: a verified model

This project models the parts of the Greaseweazle floppy flux firmware where correctness
rests on interleaving, modular arithmetic or suspended computation, and proves what the
firmware promises about them, over all inputs and all runs. `dafny verify dfyconfig.toml`
checks everything; every file uses only the modules in this directory.

## What is modelled

**The flux stream.** `FluxCodec` gives the byte stream of CMD_WRITE_FLUX a meaning: a
decoder that sees the whole stream at once. `FluxWriter` is the firmware's resumable
decoder with its byte ring, its wrapped 32-bit indexes and its DMA ring, and is proved to
play a prefix of that meaning however packets, DMA progress and output space cut it up.
`ReadStream` says what a host hears in the bytes of CMD_READ_FLUX, on an unbounded clock;
`FluxReader` is the polled encoder, the byte ring and the USB packets made from it; a
transition is assumed to be in the DMA ring as soon as it happens, and polls to follow each
other within 200us. The counter width is a parameter (16 bits on F1 and AT32, 32 bits on F7). The decoder tests
`ticks < MIN_PULSE` in its main loop and `ticks > MIN_PULSE` when it finishes a long
one-shot; the model keeps that difference, so a remainder of exactly MIN_PULSE ticks is
carried on.

**Double-buffered endpoints of the AT32** (`At32Ring`, `At32Tx`, `At32Rx`). The thread in
usbd_read or usbd_write, the interrupt handler and the hardware are the three parties of a
state machine whose steps are the points at which one can overtake another: copying,
moving the index, the unmasked look at `kick`, the masked section, and the handler before
and after its toggle of SW_BUF. The hardware is assumed to use the buffer that DTOG names,
to toggle DTOG and set CTR on completion, and to answer NAK while DTOG equals SW_BUF. A
class holds the driver's own variables, and each of its methods is proved to make the step
of that name.

**Credit flow control of the DWC controller** (`DwcOtg`). The hardware is assumed to
accept at most as many packets as it was armed for, to end a transfer early on a short
packet, and to report completion only when the packets of the transfer have been unloaded.

**The clock and the timer queue** (`TimeBase`, `TimerList`, `TimerQueue`). A 32-bit clock
rebuilt from a 24-bit counter is kept alive by a timer in a linked list that is itself
ordered by that clock. Callbacks may set and cancel timers. Each reading of the clock draws
the time that has passed from a range, and how far that range goes is the assumption about
the world, of which there are two. In general it is that no reading comes 2^23 ticks or more
after the stamp's period of 2^23 ticks has ended. The clock's own timer is set for that end;
only the first time it is later, by the time between the two readings of time_init, which so
counts as lateness. In a world that is `timely` (interrupts are served within `lag` ticks, a
round of the handler lasts at most `callback` ticks, and these are short against 2^23 for the
number of timers there are) even this is proved, and with it a bound on the lateness of every
callback: it is delayed only by timers ahead of it in the list, and once its time has come
none can be put there.

**The device state machine** (`Drive`, `Device`). Commands, polls, watchdog, USB reset and
reconfiguration in any order, against drives whose head positions, sensors and end stops
are modelled, with a trace of everything that reaches a drive. The firmware accepts any
cylinder, also one beyond a drive's last, and then no longer knows where the head is: that
is proved to be the only way to lose it.

**Index pulses** (`HardSector`, `Util`). The mask, the ageing of the last trigger, the
hard-sector filter on a turning disk, and the bitwise division behind its threshold.

**Firmware integrity** (`Division`, `Crc`, `Crc32`, `UpdateFile`, `FwUpdate`). Polynomial
long division as the reference for both CRCs, the 256-entry table of the CRC16, the update
files that mk_update.py builds, concatenates and verifies, and the bootloader's streaming of
an image into erased flash.

**Control transfers** (`Ep0`). The data stages of section 5.5.3 of the USB 1.1
specification and the reassembly of data from the host.

`Words` holds machine words and the arithmetic of wrapped counters.

Four things the proofs brought out.

- At boot the trigger time of the index pulses is zero, and lies ahead of a clock that
  starts just before its wrap. Where SYSCLK_MHZ is a constant (F1, F7) the comparisons are
  signed and index pulses are masked until the clock has wrapped, up to 2^24 ticks after
  boot, and for the mask time after that. On AT32, where it is an unsigned variable,
  the first index_timer ends this before it begins (`IndexState.constructor` has both
  states, `FirstCounted` says which pulse is the first to count, `PulsesAtBoot` shows it at
  one boot).
- Ageing the trigger time is harmless exactly if the mask is no longer than the index
  timer's period and the threshold is shorter (`ClampHarmless`); a host can ask for a
  longer sector.
- mk_update.py packs images for the STM32F1 that a part with 64 KiB of flash cannot take
  (`LargestImageRefused`); an image is kept exactly where it fits with its footer
  (`InstallPacked`).
- A drive's head position is lost exactly by an accepted seek beyond its last cylinder
  (`FloppySeek`; `SeekBeyondTheLast` is one).

## Model

| member | source | states |
|---|---|---|
| FluxCodec.Get28Put28 | src/floppy.c:716-722 | an N28 argument keeps exactly the low 28 bits of what was put in |
| FluxCodec.N28Positions | src/floppy.c:716-722 | the seven-bit groups of an N28 argument stand in its four bytes least significant first, each above a set bit, and are read back from there |
| FluxCodec.LexExtends | src/floppy.c:1003-1045 | bytes that arrive later never change a token that is complete, so a decoder may act on it at once |
| FluxCodec.DecodeAppend | src/floppy.c:945-1077 | decoding a stream cut anywhere is decoding its first part and then, with the carried ticks and the cut token, the second |
| FluxCodec.AstableRegion | src/floppy.c:1027-1038 | the bytes of a space of n ticks and an astable command of period p play, on top of what is owed, as many pulses of p ticks as fit the time, and what is left is carried on |
| FluxCodec.InvalidCommand | src/floppy.c:1030-1045 | the bytes of any other command, or of an astable one with a period below 57 or too wide for the timer, play nothing and are an error |
| FluxCodec.DecodeShort | src/floppy.c:1009-1011 | a byte from 1 to 249 is a transition that many ticks on: no pulse if too soon, one, or whole counter periods and the rest |
| FluxCodec.DecodeLong | src/floppy.c:1012-1018 | and so are two bytes of which the first is from 250 to 254 |
| FluxCodec.DecodeNul | src/floppy.c:1004-1008 | a NUL ends the stream and plays nothing |
| FluxCodec.DecodeLegal | src/floppy.c:951-1064 | every period played, for every stream, is at least 57 ticks and fits the timer |
| FluxCodec.DecodeConserves | src/floppy.c:957-1070 | played periods plus carried ticks equal the ticks of all tokens, modulo 2^32, through merging, splitting and astable regions |
| FluxCodec.DecodeEncodedSample | src/floppy.c:761-779 | the bytes of one sample, whatever follows them, decode as one flux of the time conveyed |
| FluxCodec.RoundTrip | src/floppy.c:753-780 | encoding samples within range and decoding gives the samples back exactly, with nothing owed |
| FluxCodec.RoundTripExactly | src/floppy.c:753-780 | samples come back if and only if each is a legal pulse that N28 can carry |
| FluxCodec.NeverMorePulses | src/floppy.c:1051-1066 | short samples merge and never multiply: no more pulses than samples |
| FluxCodec.LastByteTellsEnd | src/floppy.c:1173-1175 | for a NUL-free body closed by a NUL, the newest byte is NUL exactly when all of it is there |
| FluxWriter.Writer.Read28 | src/floppy.c:935-943 | reads the four bytes of an N28 argument out of the ring, across its end |
| FluxWriter.Writer.ReadToken | src/floppy.c:1003-1045 | takes exactly the token that the reference finds, or nothing if its end has yet to come |
| FluxWriter.Writer.PlayAstable | src/floppy.c:957-968 | plays what fits of an astable region and keeps the account with the reference decode |
| FluxWriter.Writer.PlayOneShot | src/floppy.c:970-991 | plays what fits of a flux too long for the counter, with the last piece only if longer than 57 ticks |
| FluxWriter.Writer.Resume | src/floppy.c:955-997 | finishes suspended work first; if space is left over, the decoder is idle |
| FluxWriter.Writer.TakeToken | src/floppy.c:999-1060 | one round of the main loop, entered only in idle mode, keeps the account; it stops for want of bytes, a mode change, the end or an error, and only then |
| FluxWriter.Writer.DecodeFlux | src/floppy.c:945-1077 | at any amount of output space: writes only the entries it reports, the decode so far and what is still owed make up the reference decode, and it stops short only for the reasons of the code |
| FluxWriter.Writer.FillDmaRing | src/floppy.c:1079-1096 | the producer never reaches the DMA engine's consumer, and waiting samples are the decoder's, in order |
| FluxWriter.Writer.PlayedIsPrefix | src/floppy.c:945-1096 | over any run, what the DMA engine has fetched is a prefix of the one-shot decode of the whole stream, whatever arrives later, and every pulse is legal |
| FluxWriter.Writer.StarvedIsComplete | src/floppy.c:999-1023 | a decoder waiting for bytes has produced all of the reference decode |
| FluxWriter.Writer.ProcessWritePacket | src/floppy.c:1098-1124 | no received byte is lost or overwritten before it is consumed, also when the 32-bit indexes wrap; a packet waits only if it does not fit |
| FluxWriter.Writer.StorePacket | src/floppy.c:1111-1121 | a packet stored in one or two pieces extends the ring's contents by exactly its bytes |
| FluxWriter.Writer.Run | src/floppy.c:945-1124 | a whole run, of packets arriving, polls, fills and fetches in any order: what was fetched is a prefix of what was decoded, and that of the one-shot decode of the bytes taken; these and the packets still at the endpoint are all that came, in order; and as long as all fits the ring each poll takes a packet |
| FluxWriter.Writer.EndSeenExactly | src/floppy.c:1169-1175 | the peek of the wait-data state tells whether a well-formed stream is all there, in both directions |
| FluxWriter.Writer.CheckUnderflow | src/floppy.c:1220-1237 | underflow is an empty ring, or fewer than 16 bytes of which the newest is not NUL |
| FluxWriter.Writer.NoFalseUnderflow | src/floppy.c:1224-1227 | once a well-formed stream has wholly arrived, no underflow is declared before it is finished |
| FluxWriter.Writer.BlockedPacketMeansReady | src/floppy.c:1108-1122 | a packet without room never blocks the write: the decoder has a token, or the rings are full enough to start |
| FluxWriter.Writer.WaitData | src/floppy.c:1155-1179 | without a bad command, the write starts if and only if both rings are full enough or the stream has ended |
| FluxWriter.Writer.FloppyWrite | src/floppy.c:1239-1273 | a poll of the write: how it goes on or ends and how many samples have been fetched by then, exactly, in the order the code decides it |
| FluxWriter.Writer.DrainRing | src/floppy.c:1258-1268 | the wait for the DMA ring ends at the first look that finds an index it has to stop at, or every sample fetched, also if the engine has run past the last |
| FluxWriter.StopsAtIndex | src/floppy.c:1259-1263 | it stops at an index if and only if one is seen before all samples are known to be fetched |
| FluxWriter.Writer.WriteStream | src/floppy.c:1239-1273 | a whole write of a well-formed stream in any packets: if it ends well, and not at an index pulse, every sample of the one-shot decode has been fetched, and if it was to stop at one then none had been seen by then; and it never underflows once all has been received |
| FluxWriter.Writer.WriteDrain | src/floppy.c:1275-1292 | a poll before the end fills the whole output buffer, or consumes a token, or finds that more bytes must come; the ACK is sent only after the end |
| FluxWriter.Writer.DrainAll | src/floppy.c:1275-1292 | once a closed stream has wholly arrived, as many polls as there are bytes and samples left decode it to its end and send the ACK |
| ReadStream.HearAppend | src/floppy.c:753-780 | a read stream that parses can be heard in pieces |
| ReadStream.HearSample | src/floppy.c:761-779 | the one-, two- and seven-byte forms are all heard as the exact time, below 2^28 |
| ReadStream.HearIndex | src/floppy.c:743-745 | an index record is heard as a pulse that many ticks after the cursor, which stays |
| ReadStream.DistinctIs | src/floppy.c:761-762 | of times in order, those a host hears are the same, each once |
| FluxReader.Reader.constructor | src/floppy.c:800-829 | a read starts with the cursor at the time the counter shows and nothing sent |
| FluxReader.Reader.Write28bit | src/floppy.c:716-722 | appends the four bytes of an N28 argument to the stream in the ring |
| FluxReader.Reader.PutSample | src/floppy.c:761-779 | appends the encoding of a time between transitions, and nothing for zero |
| FluxReader.Reader.ReportIndex | src/floppy.c:737-749 | a pulse since the last poll is recorded at its true time, although only counter readings are known |
| FluxReader.Reader.EncodeNext | src/floppy.c:754-779 | one capture is encoded so that the host hears it at its true time; a repeat of the same instant is dropped |
| FluxReader.Reader.EncodeCaptures | src/floppy.c:753-780 | all captures up to the sampled producer index are encoded, and the cursor never passes a later one |
| FluxReader.Reader.LongGap | src/floppy.c:782-793 | a long silence moves the cursor so that it trails the counter by at most 28800 ticks and stays behind anything still to come |
| FluxReader.Reader.RdataEncodeFlux | src/floppy.c:724-798 | polled within 200us, over unbounded runs with a 16-bit counter: the stream says exactly the distinct capture times and the reported pulses, and the lag stays within 28800 ticks |
| FluxReader.Reader.MakeReadPacket | src/floppy.c:831-844 | a packet is the next bytes of the stream, intact, in one or two pieces |
| FluxReader.Reader.FloppyReadChecks | src/floppy.c:865-893 | a read ends well exactly at its deadline, which lingering can only bring forward, and without an index exactly if none has come within two seconds although one was asked for |
| FluxReader.Reader.ReadSome | src/floppy.c:850-893 | an overrun of the byte ring is declared if and only if one happened, before any destroyed byte can be sent; a poll that goes on leaves the limits as asked for, or once the index limit is reached the time to linger, exactly; and it goes on exactly if nothing is over |
| FluxReader.Reader.SendFinal | src/floppy.c:895-906 | the last data packet is the rest of the stream and a NUL; a full one is followed by an empty one |
| FluxReader.Reader.SendZlp | src/floppy.c:1783-1788 | the empty packet is sent when it can be, and ends the transfer |
| FluxReader.Reader.FloppyRead | src/floppy.c:846-915 | every poll keeps the account of captured, encoded, packed and sent, makes a packet if a full one is there and sends it if it can, and changes the limits only as said |
| FluxReader.Reader.HostHears | src/floppy.c:724-915 | in the packets of a read that ended well the host hears every transition there was, and every reported pulse, at the times they happened |
| FluxReader.Reader.HostSeesTheEnd | src/floppy.c:895-906 | with any status, the packets carry a NUL-free part of the stream and one NUL at the end |
| FluxReader.Reader.Run | src/floppy.c:724-915 | a whole run, of transitions, index pulses and polls in any order that timing allows: a read that ended well is heard as exactly these transitions and, of the pulses each poll found, the last; any read that ended is a part of the stream and a NUL; it was ended by the first poll that had reason to, by the limits as they were asked for at first, with the status that goes with it; and it ends, once enough polls after the deadline find the endpoint free |
| FluxReader.LimitReached | src/floppy.c:865-874 | the limits at any poll: those asked for, until the first poll that finds enough index pulses, and from then on the earlier of the deadline and that poll's time plus the lingering |
| FluxReader.EveryPulseReported | src/floppy.c:737-749 | if no two index pulses come between polls, the reported ones are all there were |
| FluxReader.ReportedHappened | src/floppy.c:737-749 | no pulse is reported that did not happen |
| At32Tx.Endpoint.constructor | src/usb/hw_usbd_at32f4.c:241-276 | a configured IN endpoint is empty, with `kick` set |
| At32Tx.Endpoint.EpTxReady | src/usb/hw_usbd_at32f4.c:126-132 | ready exactly when the software ring has a free entry, across the 16-bit wrap |
| At32Tx.StepKeeps | src/usb/hw_usbd_at32f4.c:170-191 | every step of thread, interrupt and hardware keeps the protocol's invariant |
| At32Tx.SecondHalfKeeps | src/usb/hw_usbd_at32f4.c:494-495 | the handler's second packet goes into the buffer the hardware is not using, even if the first has left meanwhile |
| At32Tx.PipelineFull | src/usb/hw_usbd_at32f4.c:485-495 | when the handler is done, both hardware slots are filled or nothing is left to fill them with |
| At32Tx.InOrder | src/usb/hw_usbd_at32f4.c:178-191 | in every interleaving packets leave in the order written, none lost or doubled, at most two waiting in software and two in hardware, and an interrupt always finds a slot to release |
| At32Tx.NoLostWakeUp | src/usb/hw_usbd_at32f4.c:476-509 | outside usbd_write and the handler, a packet that has not left means one in flight or an interrupt pending |
| At32Tx.Drains | src/usb/hw_usbd_at32f4.c:476-509 | after any run, interrupt and hardware alone cannot stop before every packet has left |
| At32Tx.OwnStepsEnd | src/usb/hw_usbd_at32f4.c:476-509 | and they do stop: each of their steps leaves less to do |
| At32Tx.Endpoint.Step | src/usb/hw_usbd_at32f4.c:178-191 | the driver's variables make each step of the protocol |
| At32Tx.FirstHalfKeeps | src/usb/hw_usbd_at32f4.c:476-492 | the handler up to its toggle hands the hardware the oldest packet not yet sent, from the software ring if neither slot has one, and sets `kick` exactly if there is none at all |
| At32Rx.Endpoint.constructor | src/usb/hw_usbd_at32f4.c:241-293 | a configured OUT endpoint has SW_BUF set, DTOG clear and `kick` clear |
| At32Rx.Endpoint.EpRxReady | src/usb/hw_usbd_at32f4.c:109-117 | reports the length of the oldest packet not yet read, or -1 |
| At32Rx.NeverRefilledWhileCopied | src/usb/hw_usbd_at32f4.c:425-442 | although SW_BUF toggles before the copy, the hardware never fills the buffer being copied, which holds the oldest packet |
| At32Rx.InOrder | src/usb/hw_usbd_at32f4.c:141-152 | in every interleaving, packets read are a prefix of those the host had accepted, and at most four are inside |
| At32Rx.StallIsRemembered | src/usb/hw_usbd_at32f4.c:417-421 | hardware refusing packets has its interrupt pending, or a full ring behind it and `kick` set for the next read |
| At32Rx.FlowResumes | src/usb/hw_usbd_at32f4.c:145-150 | with nothing left for the firmware to do, all packets are read and the hardware accepts again |
| At32Rx.OwnStepsEnd | src/usb/hw_usbd_at32f4.c:141-152 | and the firmware gets there: each of its steps leaves less to do |
| At32Rx.Endpoint.Step | src/usb/hw_usbd_at32f4.c:141-152 | the driver's variables make each step, and a read returns the oldest packet not yet read |
| At32Rx.FirstHalfKeeps | src/usb/hw_usbd_at32f4.c:405-430 | the handler up to its toggle, or its stall on a full ring, keeps the invariant from every state it can be entered in |
| DwcOtg.ArmsForAllRoom | src/usb/hw_dwc_otg.c:79-94 | an idle endpoint is armed exactly when more than half its ring is free, and then for all that is free |
| DwcOtg.PrepareKeeps | src/usb/hw_dwc_otg.c:72-95 | arming restores the invariant from any room there is |
| DwcOtg.OutEndpoint.ReadPacket | src/usb/hw_dwc_otg.c:220-225 | returns the oldest packet and arms again if that makes room |
| DwcOtg.OutEndpoint.HandleRxTransfer | src/usb/hw_dwc_otg.c:350-371 | both ASSERTs hold and the packet joins the ring |
| DwcOtg.OutEndpoint.HandleOepint | src/usb/hw_dwc_otg.c:373-395 | the ASSERT on completion holds and the endpoint is armed again if there is room |
| DwcOtg.InOrder | src/usb/hw_dwc_otg.c:209-225 | over every run packets are read in order, and there is room for all the hardware may still deliver |
| DwcOtg.NoOverflow | src/usb/hw_dwc_otg.c:362-381 | over every run none of the three ASSERTs fires |
| DwcOtg.IdleIsReadable | src/usb/hw_dwc_otg.c:79-84 | an idle endpoint always has at least half its ring to be read |
| DwcOtg.NoDeadlock | src/usb/hw_dwc_otg.c:72-95 | with nothing left for the driver to do, all is read and the hardware is armed |
| DwcOtg.OwnStepsEnd | src/usb/hw_dwc_otg.c:220-225 | each step of the driver leaves less to do |
| TimeBase.TimeNowExactly | src/time.c:26-34 | the rebuilt clock equals time modulo 2^32 if and only if the stamp is less than 2^24 ticks old |
| TimeBase.TimeDiffExact | inc/time.h:23 | time differences within half the range are exact across the wrap |
| TimeBase.FireAfterInTime | src/timer.c:43-60 | the one-shot fires by the deadline or within two ticks; a fine setting ends within the slack; a coarse 16-bit one comes at least 56700 ticks nearer and never overshoots |
| TimeBase.DeadlineReached | src/timer.c:43-60 | re-arming reaches a deadline after a bounded number of settings, however late each of the interrupts is |
| TimerQueue.Timers.TimeNow | src/time.c:26-34 | every reading of the clock, for ever, is the true time modulo 2^32, if it comes less than 2^23 ticks after the update of the stamp is due |
| TimerQueue.RoundStarts | src/timer.c:142-150 | with so many timers ahead of one, a round of the handler ends within that timer's bound, and taking the first out leaves the others theirs |
| TimerQueue.AllAfterSet | src/timer.c:88-113 | a callback that sets a timer leaves every timer its bound |
| TimerQueue.Timers.NoneOverdue | src/timer.c:135-151 | in a timely world no timer that is set is ever overdue by more than the bound |
| TimerList.AheadAfterSet | src/timer.c:100-107 | a timer set to be due after the clock's never comes before it |
| TimerQueue.Timers.TimeStampUpdate | src/time.c:19-24 | the stamp is renewed and the clock's timer set half its range ahead, whatever other timers are set |
| TimerQueue.Timers.TimeInit | src/time.c:36-42 | starts the clock and its timer |
| TimerList.Removed | src/timer.c:81-85 | unlinking an entry leaves an acyclic list of the others and marks it inactive |
| TimerList.Inserted | src/timer.c:106-107 | linking in a timer leaves an acyclic list with it at that place |
| TimerList.PlaceIs | src/timer.c:102-105 | the search ends at the first entry due no earlier |
| TimerList.StillArmed | src/timer.c:97-110 | moving a timer to anywhere but the front leaves the one-shot set early enough |
| TimerQueue.Timers.Unlink | src/timer.c:74-86 | takes the timer out, wherever it is, if it is active |
| TimerQueue.Timers.ReprogramTimer | src/timer.c:43-60 | arms the one-shot for the deadline, or two ticks ahead if that is later, and never to wake for nothing |
| TimerQueue.Timers.TimerSet | src/timer.c:88-113 | the list is the old one without the timer and with it put before the first due no earlier; order by true deadlines, clock and arming are kept |
| TimerQueue.Timers.TimerCancel | src/timer.c:115-121 | the list is the old one without the timer, and still armed |
| TimerQueue.Timers.RunCallback | src/timer.c:149 | a callback's settings and cancellations, in order, leave exactly the timers set that they should, with their deadlines, in a list and a clock that are right |
| TimerQueue.Timers.ServeFirst | src/timer.c:142-150 | either no timer is due and the one-shot is set for the first, or exactly its callback is run, not more than 12 ticks early and in a timely world within its bound, and what is set afterwards is what its actions leave set |
| TimerQueue.Timers.IrqTimer | src/timer.c:135-151 | with callbacks that set and cancel timers, itself included, the list, the clock and the bounds are kept; a handler that returns has served every timer that was due when it was entered, in the order of their deadlines, and leaves the one-shot armed |
| TimerQueue.Timers.Happen | src/timer.c:88-151 | what one event does: an action is performed, an interrupt serves all that is due, a clock or a timer that expires changes nothing that is set |
| TimerQueue.Timers.Run | src/timer.c:88-151 | over any run of settings, cancellations, expiries and interrupts all of this is kept; the timers set and their deadlines are what the actions of the events and of the callbacks leave, and every callback is that of a timer due first, in time |
| Drive.SafeMeans | src/floppy.c:535-543 | in a safe trace nothing but switching the gate off happens with the gate on, or before the post-write delay of any earlier switching off has ended |
| Device.Controller.OpDelayAsync | src/floppy.c:153-171 | a running delay is never brought forward; very long ones are waited for at once |
| Device.Controller.OpDelayWait | src/floppy.c:173-178 | waits for the delay exactly if it holds one of these operations off, and returns with them permitted and, for writing, seeking and head changes, with every post-write delay over |
| Device.Controller.StepOnce | src/floppy.c:395-401 | one pulse moves the selected drive's head as the drive allows, and is never given while writing or held off |
| Device.Controller.FlippyDetect | src/floppy.c:378-385 | recognises a flippy drive, and leaves its sensor on |
| Device.Controller.FindCyl1 | src/floppy.c:426-437 | from anywhere down to cylinder -9 the inward search ends at cylinder 1 |
| Device.Controller.FloppySeekInitialise | src/floppy.c:403-453 | a unit becomes initialised, with its true position and kind, if and only if its head is where 256 steps out, and ten in on a flippy drive, find it |
| Drive.MovedFar | src/floppy.c:487-488 | where a number of step pulses takes the head: inwards to the stop, outwards as far as the drive lets it |
| Device.Controller.FloppySeek | src/floppy.c:455-497 | the exact answer, also for a unit not initialised before; on success the head of a unit whose position was known, or has been found, is at the cylinder asked for, or at the last if that comes first, and exactly then it is led astray; reading, writing and seeking wait for the settling time from the last step |
| Device.Controller.FloppyNoClickStep | src/floppy.c:499-523 | the exact answer; if the unit is found it is stepped, and the head of a unit not led astray ends at cylinder 0, with a refusal exactly for a drive without a stop there |
| Device.Controller.DriveSelect | src/floppy.c:211-250 | exactly a selectable unit is selected, otherwise none is |
| Device.Controller.DriveMotor | src/floppy.c:252-291 | the exact answer, and switches the motor, or the shared motor line, and nothing else |
| Device.Controller.FloppyFluxEnd | src/floppy.c:535-543 | the gate is off, and if it was on the post-write delay runs from that moment |
| Device.Controller.QuiesceDrives | src/floppy.c:563-586 | every unit known at a negative cylinder is taken to 0 and no other is moved or changed, no motor that can be switched is left on, the gate is off and no drive is selected |
| Device.Controller.ChangeBus | src/floppy.c:588-594 | drives are quiesced before what is known of them is forgotten |
| Device.Controller.ChangeHead | src/floppy.c:1580-1589 | a head change waits for its permission, happens once, and only if it is one |
| Device.Controller.FloppyErasePrep | src/floppy.c:1299-1313 | the gate goes on for an erase only when writing is permitted and the disk is not protected |
| Device.Controller.FloppyWriteWaitIndex | src/floppy.c:1197-1218 | the gate goes on exactly with the state in which data is written |
| Device.Controller.FloppyErase | src/floppy.c:1315-1326 | the gate goes off exactly when the erase has lasted its time |
| Device.Controller.ProcessCommand | src/floppy.c:1516-1747 | each command's exact answer, errors included, and exactly what it changes of the state, the drives and what is known of them |
| Device.Controller.FloppyProcess | src/floppy.c:1767-1835 | the state and the status after each poll, the gate on in exactly the two writing states, and nothing else changed |
| Device.Controller.FloppyWriteWaitData | src/floppy.c:1155-1195 | an invalid stream ends the write with its error, a buffered one waits for the index, with writing permitted |
| Device.Controller.BackToWait | src/floppy.c:1767-1835 | which polls end what a command has started, for every state |
| Device.Controller.NearerToWait | src/floppy.c:1767-1835 | polls that nothing holds up lead from every busy state back to waiting for a command, in at most four |
| Device.Controller.OkayUnlessFailed | src/floppy.c:1767-1835 | a read or write reports Okay if and only if no poll found a failure, whichever states it went through |
| Device.Controller.Step | src/floppy.c:1749-1836 | exactly what each event changes, and how a command is answered; watchdog expiry and USB reset leave the gate off and no known head at a negative cylinder |
| Device.Controller.Run | src/floppy.c:1749-1841 | over every run: the gate is on exactly in the two writing states, the trace is safe, every recorded head position is true unless a cylinder was asked for that not every drive has, and each event changes what it should and nothing else |
| Device.SeekBeyondTheLast | src/floppy.c:467-497 | a drive of 80 cylinders asked for cylinder 80: answered with Okay, and the head is believed where it is not |
| Util.Udiv64 | src/util.c:148-156 | the quotient, or all ones where it does not fit 32 bits or the divisor is zero |
| HardSector.ClampHarmless | src/floppy.c:1882-1895 | ageing the last pulse changes no verdict if and only if the mask is no longer than the period and the threshold shorter |
| HardSector.IndexState.constructor | src/floppy.c:659-660 | at boot the trigger time stands for the clock's wrap, still to come, where comparisons are signed, and for a pulse long ago where they are not |
| HardSector.FirstCounted | src/floppy.c:1855-1858 | the first pulse to count is the first that is not within the mask of the trigger time, whatever came before it |
| HardSector.PulseMeans | src/floppy.c:1855-1879 | what one pulse does to count, counter, trigger and time, masked or not, with a threshold or without |
| HardSector.IndexState.IrqIndexChanged | src/floppy.c:1847-1880 | with a threshold below the index timer's period, the verdict is the one for the pulse's true age, however long ago the last one was, with signed and with unsigned comparisons |
| HardSector.IndexState.IndexTimer | src/floppy.c:1882-1895 | the trigger time never gets so old that its age overflows |
| HardSector.IndexState.Run | src/floppy.c:1847-1895 | over any run of pulses and index timers the counts and times are what the pulses alone make of them on a clock without end |
| HardSector.IndexState.SetHardSectorDetection | src/floppy.c:525-533 | the threshold is three quarters of a sector wherever three times its length fits a word |
| HardSector.CountsFirstSector | src/floppy.c:1861-1879 | after the first full gap, from any trigger state, exactly the first sector hole is counted |
| HardSector.OncePerRevolution | src/floppy.c:1861-1879 | in any revolution after the first full gap the count rises exactly once |
| HardSector.LocksSoon | src/floppy.c:1862-1867 | a full gap is never more than two holes away |
| HardSector.RevolutionCountsOnce | src/floppy.c:1847-1880 | the pulses of a revolution, at any times between index timers and wherever on the disk it begins, raise the count by one |
| HardSector.BouncingCountsOnce | src/floppy.c:1855-1858 | also with masked pulses among them, which change nothing |
| HardSector.Revolve | src/floppy.c:1847-1895 | and so the driver's variables count one revolution |
| HardSector.PulsesAtBoot | src/floppy.c:1855-1860 | two pulses after one boot are both masked on F1 and both counted on AT32, and the first to count on F1 is the first after the clock's wrap and the mask |
| Crc.TableCorrect | src/crc.c:12-45 | every table entry is the remainder of its index times x^16 |
| Crc.Crc16Ccitt | src/crc.c:47-54 | the table-driven loop computes the remainder of polynomial long division by x^16+x^12+x^5+1, for every buffer and seed |
| Division.FeedIsRemainder | src/crc.c:47-54 | the shift register is long division of the message followed by sixteen zeros, with the seed worked into its front |
| Crc.AppendedCrcIsZero | scripts/mk_update.py:48-52 | data followed by its own CRC, high byte first, always checks as zero |
| Crc.ZeroOnlyForOwnCrc | scripts/mk_update.py:86-88 | two closing bytes check as zero if and only if they are the data's CRC |
| Crc.BurstErrorDetected | src/crc.c:47-54 | any change confined to sixteen consecutive bits changes the CRC |
| Crc32.AppendedCrc32IsZero | scripts/mk_update.py:111-113 | a file followed by its own CRC32 always checks as zero |
| Crc32.BurstErrorDetected32 | scripts/mk_update.py:77-81 | any change confined to thirty-two consecutive bits changes the CRC32 |
| Crc32.DivideIsFeedAll32 | scripts/mk_update.py:111-113 | the shift register is long division of the message followed by thirty-two zeros, from every initial remainder |
| Crc32.CheckValue32 | scripts/mk_update.py:111-113 | the check value of CRC-32/MPEG-2, for the characters 123456789, is 0x0376E6E7 |
| UpdateFile.VerifyUpd | scripts/mk_update.py:77-93 | the loop lists what the walk over the entries lists, and fails where it fails |
| UpdateFile.CatUpd | scripts/mk_update.py:65-75 | concatenation joins the bodies of sound files and rejects any other |
| UpdateFile.PayloadChecks | scripts/mk_update.py:39-52 | the CRC over data and footer that an entry is given makes the bootloader's check of it succeed |
| UpdateFile.EntryFields | scripts/mk_update.py:46-52 | every field of an entry reads back where it should stand, the model in both places |
| UpdateFile.SizeLimits | scripts/mk_update.py:40-45 | which images may be packed, for each model and signature |
| Bytes.ByteWeights | scripts/mk_update.py:46-52 | the bits of a packed byte weigh what they should |
| UpdateFile.WrongMagicRejected | scripts/mk_update.py:65-78 | a file that does not begin with GWUP is rejected by both users |
| UpdateFile.UnknownRejected | scripts/mk_update.py:89-92 | an entry for an unknown model or with an unknown signature is rejected, whatever its checksum |
| UpdateFile.BadLengthRejected | scripts/mk_update.py:84-85 | so is one whose length is too short for a footer or goes beyond the file |
| UpdateFile.EntryVerifies | scripts/mk_update.py:83-93 | an entry as built passes the verifier, which lists its model, kind and version and goes on after it |
| UpdateFile.DamagedEntryRejected | scripts/mk_update.py:86-88 | a payload damaged within sixteen consecutive bits is never accepted |
| UpdateFile.DamagedFileRejected | scripts/mk_update.py:77-81 | a file damaged within thirty-two consecutive bits is rejected by both users |
| UpdateFile.FileVerifies | scripts/mk_update.py:77-93 | a file built from any images verifies, and exactly these are listed |
| UpdateFile.CatIsFileOf | scripts/mk_update.py:65-75 | concatenating files is building one from all their images |
| FwUpdate.Updater.FpecWrite | src/mcu/stm32f1/fpec.c:45-56 | programs exactly the given bytes, each halfword once, onto blank flash |
| FwUpdate.Updater.EraseOldFirmware | src/fw_update.c:81-88 | the region is blank and nothing outside its pages is touched |
| FwUpdate.Updater.UpdatePrep | src/fw_update.c:90-112 | a bad length or one that does not fit is refused with the flash untouched |
| FwUpdate.Updater.UpdateContinue | src/fw_update.c:114-141 | for any packets, odd lengths and excess bytes included: success means the flash is the first `len` bytes, each programmed once, with a zero CRC; failure leaves the region blank; nothing outside its pages is touched |
| FwUpdate.Updater.UpdateAll | src/fw_update.c:90-141 | a whole update over any polls: the answer to the command; the end, exactly when all bytes have come and the status can be sent; and then the flash as the status byte says |
| FwUpdate.PackedImageChecks | scripts/mk_update.py:39-52 | whatever is sent after it, the bytes of a packed image are the ones checked, with result zero |
| FwUpdate.PackedIsTakenExactly | src/fw_update.c:90-100 | a packed image is taken if and only if its data and footer fit, and otherwise refused for want of flash |
| FwUpdate.LargestImageRefused | scripts/mk_update.py:40-45 | the largest image that may be packed for an STM32F1 is refused by a part with 64 KiB of flash |
| FwUpdate.Updater.InstallPacked | src/fw_update.c:90-141 | a packed image streamed to its end, over any polls, is taken and kept byte for byte if and only if it fits; otherwise the flash is as it was |
| Ep0.StageCarries | src/usb/core.c:122-142 | the packets of a stage concatenate to the response, all but the last are 64 bytes |
| Ep0.StageEndsExactly | src/usb/core.c:135-141 | for every response and every length asked for, the host can tell that the stage is over after its last packet and not before |
| Ep0.ControlEndpoint.UsbWriteEp0 | src/usb/core.c:122-142 | one packet when the endpoint is free, and the end of the stage only after its last one |
| Ep0.ControlEndpoint.HandleTxEp0 | src/usb/core.c:217-220 | each packet sent lets the next one follow, until all of the stage is queued |
| Ep0.ControlEndpoint.TakeData | src/usb/core.c:163-171 | data is kept in order as far as there is room, and all of it is counted |
| Ep0.ControlEndpoint.Respond | src/usb/core.c:197-203 | the stage carries the response cut to the length asked for |
| Ep0.ControlEndpoint.HandleRxEp0 | src/usb/core.c:144-215 | an OUT request is handled once, when wLength bytes have come in packets of any sizes, and sees exactly these; the endpoint is stalled exactly for a request that is refused and for data with no transfer under way |
| Ep0.ControlEndpoint.Run | src/usb/core.c:144-220 | over any run of Setup packets, data packets and completions, exactly the requests that these complete are acted on, each with its own data; the packets queued are the first of its answer, one more for each completion, until all are; and the stalls are exactly those that the events give rise to |

## Left out

- Register setup, clocks, pin maps, board identification and the real DMA, timer and USB silicon: the hardware is the step models and assumptions named above.
- `src/usb/hw_usbd.c`: its double buffering rests on rules of the silicon that the repository does not state.
- Test mode and CMD_SET_PIN: raw control of the pins from outside the state machine.
- Descriptor tables, CDC requests, printk and string functions: no run-level property.
- `drive_get_info` and its caller (src/floppy.c:293-329, 1544-1553): they do not use the unit number asked for, so there is no intended behaviour to state.
- CMD_SOURCE_BYTES, CMD_SINK_BYTES and the bootloader's update of itself from the main firmware: only their effect on the state machine is modelled.
- DMA lapping: the capture ring is assumed not to be lapped by the flux, as the firmware assumes.
- FluxWriter.Writer.FillDmaRing: the DMA engine is assumed not to fetch entries before they are filled; the firmware watches its byte ring for underflow, not this one.
- FluxWriter.Writer.DrainRing: up to the first look at the draining ring, and by a ring's length between looks, the engine is assumed not to have run ahead.
- TimerQueue.Timers.TimeNow: a reading 2^23 ticks or more after the end of the stamp's period is outside the model; that there is none is proved for timely worlds, in which callers set no deadline that is already past, and assumed in others.
- TimerQueue.Timers.IrqTimer: callbacks that go on setting due timers keep the handler busy for ever; the model follows it for as long as the script of callbacks lasts.
- FluxReader.Reader.ReportIndex: if several index pulses come between two polls only the last is reported, as in the code.
- FluxReader.Reader.FloppyReadChecks: system times are unbounded there; the clock's exactness is the subject of TimeBase and TimerQueue.
- Device.Controller.Run: what the flux stream, the index and the USB endpoints bring about is given to each poll as an input; time is unbounded.
- Device.Controller.FloppySeek: what a later seek does to a head already led astray is bounded by the drive's stops but not tracked.
- DwcOtg.InOrder: only the bulk OUT endpoint; Setup packets of endpoint 0 are not modelled.
- At32Tx.InOrder: reconfiguration of an endpoint in use, which empties it, is not a step; the same holds for At32Rx.InOrder.
- FwUpdate.Updater.FpecWrite: flash writes succeed; write errors are not modelled.
- Crc32.AppendedCrc32IsZero: the crcmod library is taken to compute CRC-32/MPEG-2 and CRC-16/CCITT-FALSE as their names say.
