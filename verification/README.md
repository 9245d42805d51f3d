# Verification of the audio stack

A Dafny model of the audio codec framework of this repository, of the screen.dump and fs.write
code of the host CLI, and of the split flush of the LVGL port, with proofs of what they promise.
`dafny verify dfyconfig.toml` checks all of it.

Each stateful source file is modelled twice. A state machine on values says what every operation
does, and the main results are lemmas about all its runs. Beside it, classes with the source's
fields change them in place as the source does, and each method is proved to end in the state and
with the result of the machine. Unseen drivers may fail at any call: a script of outcomes says
which calls fail, lemmas hold for every script, and where a result needs drivers that obey, the
script is empty.

| file | models |
|---|---|
| `I2sBus.dfy` | the I2S data interface as a state machine over the nodes and the driver of one port |
| `I2sSafety.dfy`, `I2sAgreement.dfy`, `I2sExact.dfy`, `I2sEnable.dfy` | what it keeps under failures; the shared bus clock, and exactly when it is shared; deferred disables |
| `I2sCalls.dfy` | what the outcome of a single call means |
| `I2sData.dfy` | its methods on nodes that are changed in place |
| `I2sKeeper.dfy` | the list of all open nodes and the mutex of each port |
| `AdcFormat.dfy`, `AdcSamples.dfy`, `AdcData.dfy` | the ADC data interface: formats, samples, and the methods on its buffers |
| `CodecRef.dfy`, `MutexRace.dfy` | the reference manager: a list that refines a map, and its lazily created mutex |
| `Es8388.dfy` | codec instances that share a chip |
| `CodecDev.dfy` | the device lifecycle |
| `Mirror.dfy` | the input mirror and its ring buffer |
| `SwVol.dfy`, `VolMap.dfy` | software volume ramps; volume registers and curves |
| `Base64.dfy`, `Pieces.dfy`, `ScreenDump.dfy`, `NdJson.dfy` | the host side of screen.dump |
| `SplitFlush.dfy` | the split transfer of a display flush |
| `Arith.dfy`, `Common.dfy` | arithmetic and types that the other files share |

## Where the code falls short

Each of these is proved, most of them as a concrete run or input beside a lemma that says exactly
when the code does meet the property.

- Two opens whose calls interleave, the format of RX first, leave both directions running at
  different rates or frames unless the formats agree (`I2sExact.RxThenTxAgreesIff`,
  `I2sAgreement.InterleavedOpensDisagree`).
- A frame of 256 bits or more is not what is programmed, and the channel counts of two formats
  may not divide the frame they share (`I2sExact.AloneProgrammesFrameIff`,
  `I2sExact.NextOpenSharesFrameIff`).
- A reopened playback device whose format is refused leaves TX stopped although recording still
  depends on its clock (`I2sExact.ReopenKeepsClockIff`).
- The channel format of a direction is not restored on two failing paths of the negotiation
  (`I2sSafety.ChannelFormatRestoredIff`).
- A disable may report success although its channel still runs, because a deferred stop of the
  peer overwrites its result (`I2sEnable.DisableReportsTruthIff`).
- A set_fmt that widens the frame and fails half way leaves the other direction stopped, in use by
  its flag (`I2sEnable.SetFmtSparesPeerIff`).
- A deferred stop that the driver fails is forgotten: TX runs on with neither flag set, and
  recording counts as in use over a stopped channel (`I2sEnable.RunningStaysKnownIff`,
  `I2sEnable.UsedKeepsRunningIff`).
- The users of a port are counted in eight bits, so that 257 opens and a close destroy a mutex in
  use (`I2sKeeper.OpensThenCloseIff`).
- A failed hardware stop leaves an instance enabled without a reference, so that a later disable
  stops the chip under it (`Es8388.DisableKeepsInvIff`).
- A failed start, or closing an enabled instance beside another, leaves a reference behind, so that
  the disable of the last user does not stop the chip (`Es8388.LastDisableStopsIff`).
- After a close that failed half way, an open reports success with the codec off
  (`CodecDev.OkOpenRunsIff`).
- A volume curve whose size in bytes comes out as 0 makes realloc free the old curve, to which the
  device still refers and which it frees again (`CodecDev.CurveFreedOnceIff`).
- An open makes no software volume, although it has a branch for that: the flag the branch asks
  for is set only after it (`CodecDev.FlagsCoverHardware`).
- A write to the mirror can fail on an empty ring, because it counts with a free size that the
  reader has changed since (`Mirror.WriteFailsIff`).
- A write to the mirror may drop bytes for which there is room by then, for the same reason
  (`Mirror.WriteKeepsLongestIff`).
- A volume change of less than one gain step per frame never takes place, because the step is cut
  to 0 (`SwVol.RampConvergesIff`).
- An identical repeat of a chunk is accepted, but its bytes are in the payload twice; a chunk in a
  start frame is not even checked, but its bytes are there too (`ScreenDump.PayloadIsCheckedIff`).
- A set_fmt for both directions of an interface in use leaves both channels stopped under their flags,
  also when it succeeds (`I2sCalls.SetFmtBothStops`).
- A set_fmt of the ADC that fails can leave the new format (`AdcFormat.FailedSetFmtKeepsFormatIff`).

## Model

| member | source | states |
|---|---|---|
| `I2sAgreement.BothDirectionsShareTheFrame` | components/esp_codec_dev/platform/audio_codec_data_i2s.c:421-563 | After any run of opens (set_fmt, then enable) and closes by a playback and a recording device, in any order and through every negotiation path: if both are in use, TX and RX run with one sample rate and one total frame width, TX in two slots (STD) or one a channel (TDM) of playback's format, RX of recording's |
| `I2sAgreement.RunKeepsInv` | components/esp_codec_dev/platform/audio_codec_data_i2s.c:421-563 | The invariant behind it holds after every run: channels in use are programmed as the shared bus format says |
| `I2sAgreement.NegotiationAgrees` | components/esp_codec_dev/platform/audio_codec_data_i2s.c:451-563 | Whatever path the negotiation takes, it ends with the bus format shared and the other direction still in tune; it refuses a format exactly when the sample rates conflict |
| `I2sAgreement.AloneNegotiates` | components/esp_codec_dev/platform/audio_codec_data_i2s.c:456-481 | Without an active peer the format is programmed as it is |
| `I2sAgreement.SameNegotiates` | components/esp_codec_dev/platform/audio_codec_data_i2s.c:488-502 | A format equal to the running one is programmed directly, and the peer stays in tune |
| `I2sAgreement.ExtendSelfNegotiates` | components/esp_codec_dev/platform/audio_codec_data_i2s.c:503-519 | A narrower format is spread over the running frame |
| `I2sAgreement.ExtendSelfSharesFrameIff` | components/esp_codec_dev/platform/audio_codec_data_i2s.c:507-511 | A narrower format shares the running frame if and only if its channel count divides it |
| `I2sAgreement.EqualFrameNegotiates` | components/esp_codec_dev/platform/audio_codec_data_i2s.c:522-562 | Two formats of one frame width: the frame is spread over the channels of the new one, the peer is left alone |
| `I2sAgreement.WiderFrameNegotiates` | components/esp_codec_dev/platform/audio_codec_data_i2s.c:525-562 | A wider format: the peer is stopped, both channels get the new frame, and the peer runs again |
| `I2sAgreement.SetDrvFsProgrammes` | components/esp_codec_dev/platform/audio_codec_data_i2s.c:254-268 | Without failures a channel with a handle is programmed with slot bits times channels, also where more than two channels share two wider slots |
| `I2sAgreement.SetDrvFsShapes` | components/esp_codec_dev/platform/audio_codec_data_i2s.c:254-412 | Under every pattern of driver failures: a success programmes the rate of the format, two slots in STD mode and one a channel in TDM mode, each as wide as asked for unless STD mode has to put more than two channels in two slots |
| `I2sAgreement.FormatIsTakenIff` | components/esp_codec_dev/platform/audio_codec_data_i2s.c:174-191 | A format is taken if and only if it has 8, 16, 24 or 32 bits and one channel or an even number of them, above 0; one channel counts as the first of two, and a missing mask as that of all channels |
| `I2sAgreement.SetFmtBothProgrammes` | components/esp_codec_dev/platform/audio_codec_data_i2s.c:741-762 | A set_fmt for both directions that succeeds has programmed and stopped both channels, with one frame and rate, and recorded the format for both; one that fails has recorded nothing; without failures it succeeds on a node with both handles |
| `I2sAgreement.SetFsProgrammes` | components/esp_codec_dev/platform/audio_codec_data_i2s.c:421-449 | A programmed channel has the frame of the bus format and the rate of its own; the other channel is touched only by the peer TX update |
| `I2sAgreement.GetBitsSpreadsFrame` | components/esp_codec_dev/platform/audio_codec_data_i2s.c:237-244 | Slot bits times channels give the bus frame back if and only if it has less than 256 bits and divides by the channels |
| `I2sExact.AloneProgrammesFrameIff` | components/esp_codec_dev/platform/audio_codec_data_i2s.c:456-481 | A format without an active peer gets its frame if and only if this has less than 256 bits |
| `I2sExact.WiderSharesFrameIff` | components/esp_codec_dev/platform/audio_codec_data_i2s.c:525-562 | A wider format shares its frame with the peer if and only if both channel counts leave the same remainder of its eight-bit width; under 256 bits, if and only if the channel count of the peer divides it |
| `I2sExact.NextOpenSharesFrameIff` | components/esp_codec_dev/platform/audio_codec_data_i2s.c:451-563 | After any run of fitting opens and closes, the next open beside an active peer of its rate succeeds, whatever its frame. The frame is shared if and only if, when it is narrower, its channel count divides the running frame, and when it is wider, its channel count and the peer's leave the same remainder of its eight-bit width |
| `I2sExact.RxThenTxAgreesIff` | components/esp_codec_dev/platform/audio_codec_data_i2s.c:743-773 | Two opens of idle directions whose calls interleave, the format of RX first: after both enables, in either order, they agree if and only if the formats have one rate and are spread to one frame; under 256 bits, one rate and one frame |
| `I2sExact.TxThenRxAgrees` | components/esp_codec_dev/platform/audio_codec_data_i2s.c:421-449 | With the format of TX first they always agree, on the format of RX: the TX channel follows |
| `I2sAgreement.DuplexNodeIsItsOwnPeer` | components/esp_codec_dev/platform/audio_codec_data_i2s.c:151-172 | One full-duplex node is the pair of both its directions |
| `I2sAgreement.TxRxNodesArePeers` | components/esp_codec_dev/platform/audio_codec_data_i2s.c:151-172 | A TX node and an RX node are each other's pair, in either list order |
| `I2sAgreement.InterleavedOpensDisagree` | components/esp_codec_dev/platform/audio_codec_data_i2s.c:456-481 | Concrete run: when the calls of two opens interleave, both directions run at different rates |
| `I2sExact.UnevenFrameDisagrees` | components/esp_codec_dev/platform/audio_codec_data_i2s.c:507-511 | Concrete run: after 6 channels of 24 bits, 10 of 8 bits open with success, and both directions run with different frames |
| `I2sExact.ReopenKeepsClockIff` | components/esp_codec_dev/platform/audio_codec_data_i2s.c:730-773 | Opening playback again, with any format, while recording needs the TX clock keeps it running if and only if the format is invalid or its sample rate is the running one: another rate is refused only once TX is stopped |
| `I2sSafety.SetFmtNeverReconfiguresRunning` | components/esp_codec_dev/platform/audio_codec_data_i2s.c:730-774 | No channel is ever reconfigured while it runs, on any path of set_fmt, for any list of nodes, under every pattern of driver failures |
| `I2sSafety.CheckFsCompatibleSafe` | components/esp_codec_dev/platform/audio_codec_data_i2s.c:451-563 | The same for the negotiation alone, on a stopped channel |
| `I2sSafety.UpdatePeerTxSafe` | components/esp_codec_dev/platform/audio_codec_data_i2s.c:434-447 | The peer TX update stops the channel before it programs it |
| `I2sSafety.CompatErrorKeepsBus` | components/esp_codec_dev/platform/audio_codec_data_i2s.c:451-563 | Any error of the negotiation leaves the bus format of every node unchanged and no reconfig flag newly set, under every pattern of driver failures |
| `I2sSafety.SetFmtErrorKeepsBus` | components/esp_codec_dev/platform/audio_codec_data_i2s.c:743-773 | The same for set_fmt as a whole, unless the error comes from restarting a channel after the format was agreed on |
| `I2sSafety.ChannelFormatRestoredIff` | components/esp_codec_dev/platform/audio_codec_data_i2s.c:503-559 | After an error the channel format is the old one exactly on the paths that restore it, or where the overwriting value happens to be the old one |
| `I2sSafety.ExpandLosesChannelFormat` | components/esp_codec_dev/platform/audio_codec_data_i2s.c:522-559 | Concrete failure: the channel format has changed although the call failed |
| `I2sEnable.ChannelsFollowRequests` | components/esp_codec_dev/platform/audio_codec_data_i2s.c:630-674 | After any run of single-direction enables and disables: in use means running, running means in use or about to stop, a deferred stop means the peer is in use, and both channels are off once neither is in use; symmetric on HW version 1 |
| `I2sEnable.ClockOutlivesRecording` | components/esp_codec_dev/platform/audio_codec_data_i2s.c:634-657 | TX is never stopped by a call that leaves recording enabled, nor RX, on HW version 1, by one that leaves playback enabled |
| `I2sEnable.OutFlagSurvivesFailures` | components/esp_codec_dev/platform/audio_codec_data_i2s.c:630-674 | Over any run of enables and disables, under every pattern of driver failures, the playback flag never claims a channel that does not run |
| `I2sEnable.SetFmtSparesPeerIff` | components/esp_codec_dev/platform/audio_codec_data_i2s.c:522-562 | A set_fmt for one direction leaves the running channel of an active peer running, under all driver failures, if and only if it does not widen the frame at the peer's rate: one that does stops the peer and may leave it so |
| `I2sEnable.FailedSetFmtStopsPlayback` | components/esp_codec_dev/platform/audio_codec_data_i2s.c:532-553 | Concrete call: a set_fmt for recording fails half way, and playback counts as in use over a stopped TX |
| `I2sEnable.DisableReportsTruthIff` | components/esp_codec_dev/platform/audio_codec_data_i2s.c:645-656 | A disable that reports success has stopped its channel under all failures if and only if it was stopped before or no stop of the peer is pending: the outcome of the deferred stop replaces the own one |
| `I2sEnable.RunningStaysKnownIff` | components/esp_codec_dev/platform/audio_codec_data_i2s.c:630-674 | "A running channel is in use or about to stop" survives an enable under all driver failures if and only if the channel does not run for a pending stop alone, and a disable if and only if, where it carries out a stop of the peer's, the peer's channel is off or in use and the own one is off or about to stop |
| `I2sEnable.UsedKeepsRunningIff` | components/esp_codec_dev/platform/audio_codec_data_i2s.c:630-674 | "A direction in use runs" survives an enable under all driver failures, and a disable if and only if it does not carry out a stop of the peer's or neither direction is in use |
| `I2sEnable.FailedDeferredStopLosesTx` | components/esp_codec_dev/platform/audio_codec_data_i2s.c:646-656 | Concrete run: the driver fails a deferred stop, TX runs on with neither flag set, and recording counts as in use over a stopped channel |
| `I2sEnable.FailedOwnStopLosesRx` | components/esp_codec_dev/platform/audio_codec_data_i2s.c:646-656 | Concrete run: the driver fails the own stop of a disable but not the peer's, and the disable reports success while RX runs with neither flag set |
| `I2sEnable.InOutFlagsSurviveFailures` | components/esp_codec_dev/platform/audio_codec_data_i2s.c:610-629 | Enabling both directions at once keeps both flags equal to the driver's state under every pattern of failures, failed rollbacks included |
| `I2sEnable.BothSwitchTogether` | components/esp_codec_dev/platform/audio_codec_data_i2s.c:610-629 | Under every pattern of failures: enabling or disabling both directions that reports success leaves both channels and both flags as asked for; one that fails leaves both as they were unless the driver fails to put TX back. Without failures it succeeds exactly on a node with both handles |
| `I2sEnable.RequestTakesEffect` | components/esp_codec_dev/platform/audio_codec_data_i2s.c:634-674 | A request changes the flag of its direction alone. An enable runs the channel and leaves the other one; a disable is deferred or stops the channel, and the peer's with it if that was about to stop |
| `I2sEnable.InUseIsLastRequest` | components/esp_codec_dev/platform/audio_codec_data_i2s.c:630-674 | After any run a direction is in use exactly if the last request for it was an enable, and then its channel runs; with neither in use both are off |
| `I2sCalls.NegotiationMeans` | components/esp_codec_dev/platform/audio_codec_data_i2s.c:451-563 | Under every pattern of failures: a negotiation that succeeds has programmed the channel with the frame of its path, spread over the channels of the format; one that widens the frame has programmed the peer with it, which runs |
| `I2sCalls.SetFmtMeans` | components/esp_codec_dev/platform/audio_codec_data_i2s.c:715-773 | So has a set_fmt for one direction, whose channel then runs exactly if it ran before and the node has a pair |
| `I2sCalls.FailedSetFmtStops` | components/esp_codec_dev/platform/audio_codec_data_i2s.c:712-740 | A set_fmt whose first query or stop fails changes nothing; one that fails later leaves its channel stopped |
| `I2sCalls.SetFmtBothStops` | components/esp_codec_dev/platform/audio_codec_data_i2s.c:733-762 | A set_fmt for both directions never starts a channel again, whether it succeeds or fails: each runs on exactly if it ran and its stop did not succeed, whatever its flag says |
| `I2sCalls.NegotiationRecords` | components/esp_codec_dev/platform/audio_codec_data_i2s.c:456-561 | What a negotiation that succeeds has recorded: the format of the channel on every path, and the bus format of both nodes on the paths that set it |
| `I2sCalls.EqualFormatIsRecorded` | components/esp_codec_dev/platform/audio_codec_data_i2s.c:488-502 | A format that the active peer runs already is recorded for the channel and the node's bus, and nothing else is changed, under every pattern of failures; a failure records nothing |
| `I2sCalls.UpdatePeerTxMeans` | components/esp_codec_dev/platform/audio_codec_data_i2s.c:434-447 | The peer TX update succeeds only with TX programmed and running as before, and leaves RX alone |
| `I2sCalls.MissingHandleFails` | components/esp_codec_dev/platform/audio_codec_data_i2s.c:193-201 | Without a handle a channel is neither switched nor programmed, and the code of each call |
| `I2sCalls.ProgrammingIsCounted` | components/esp_codec_dev/platform/audio_codec_data_i2s.c:246-288 | Programming a channel succeeds exactly if the driver answers, the channel is stopped, and the driver takes the slots and the clock; what it refuses stays as it was, and asking on a running channel is counted as misuse |
| `I2sCalls.NoAnswerChangesNothing` | components/esp_codec_dev/platform/audio_codec_data_i2s.c:713-728 | A set_fmt, or an enable of both directions, whose first query of the driver fails changes nothing |
| `I2sData.Driver.DriveEnable` | components/esp_codec_dev/platform/audio_codec_data_i2s.c:193-218 | The driver call sequence and its result, for a missing handle and for each failure |
| `I2sData.Driver.SetDriverFs` | components/esp_codec_dev/platform/audio_codec_data_i2s.c:254-268 | The slots and clock programmed: on success the rate of the format, in two slots or one a channel, and where a failure stops |
| `I2sData.I2sPort.GetPaired` | components/esp_codec_dev/platform/audio_codec_data_i2s.c:151-172 | The pair found by walking the nodes: the first half-duplex match, else the last full-duplex node |
| `I2sData.I2sPort.SetChannel` | components/esp_codec_dev/platform/audio_codec_data_i2s.c:421-449 | The object's set_fs ends in the state and result of the machine |
| `I2sData.I2sPort.SetDirectly` | components/esp_codec_dev/platform/audio_codec_data_i2s.c:459-480 | Saving, overwriting and restoring the formats in place leaves new formats on success and the old ones on failure |
| `I2sData.I2sPort.ExtendSlots` | components/esp_codec_dev/platform/audio_codec_data_i2s.c:503-519 | The path with wider running slots, in place |
| `I2sData.I2sPort.WidenPeer` | components/esp_codec_dev/platform/audio_codec_data_i2s.c:522-562 | The path that widens the peer, in place: flags raised and cleared, formats rolled back |
| `I2sData.I2sPort.CheckCompatible` | components/esp_codec_dev/platform/audio_codec_data_i2s.c:451-563 | The object's negotiation is that of the machine |
| `I2sData.I2sPort.SetFormat` | components/esp_codec_dev/platform/audio_codec_data_i2s.c:679-798 | The object's set_fmt is that of the machine, with the defaults it fills in: no running channel is reconfigured, and an error leaves every bus format as it was unless only the restart failed |
| `I2sData.FullMask` | components/esp_codec_dev/platform/audio_codec_data_i2s.c:697-704 | The default mask has the bits of the first channels, 16 at most |
| `I2sData.I2sPort.SwitchData` | components/esp_codec_dev/platform/audio_codec_data_i2s.c:600-677 | The object's enable is that of the machine; for both directions it keeps the flags equal to the driver's state, and success means that both channels and both flags are as asked for |
| `I2sData.I2sPort.TurnOff` | components/esp_codec_dev/platform/audio_codec_data_i2s.c:646-656 | A disable that is not deferred, followed by the peer's deferred one |
| `I2sKeeper.MutexPerPort` | components/esp_codec_dev/platform/audio_codec_data_i2s.c:56-93 | From the empty list over any opens and closes: nodes of one port share one mutex, nodes of different ports have different ones, and exactly the mutexes with a user exist |
| `I2sKeeper.AddKeepsInv` | components/esp_codec_dev/platform/audio_codec_data_i2s.c:56-66 | An open shares the mutex of its port or makes a new one, also when its allocation fails |
| `I2sKeeper.RemoveKeepsInvIff` | components/esp_codec_dev/platform/audio_codec_data_i2s.c:80-93 | A close keeps this if and only if the nodes left on the port are not a positive multiple of 256: the count has eight bits |
| `I2sKeeper.OpensThenCloseIff` | components/esp_codec_dev/platform/audio_codec_data_i2s.c:80-93 | From the empty list, any number of opens on one port and one close keep it if and only if the nodes left are not a positive multiple of 256; with 257 opens the mutex of the 256 nodes left is destroyed |
| `I2sKeeper.PairingIsPerPort` | components/esp_codec_dev/platform/audio_codec_data_i2s.c:151-172 | Pairing on the list of all ports is pairing among the nodes of one |
| `I2sKeeper.OpenNodesAreListed` | components/esp_codec_dev/platform/audio_codec_data_i2s.c:114-149 | After any run the list holds exactly the nodes that are open, the newest first |
| `I2sKeeper.KeeperList.AddToKeeper` | components/esp_codec_dev/platform/audio_codec_data_i2s.c:114-129 | The linked list after an open |
| `I2sKeeper.KeeperList.RemoveFromKeeper` | components/esp_codec_dev/platform/audio_codec_data_i2s.c:131-149 | The linked list after a close: the node alone is unlinked, its mutex destroyed with its last user |
| `I2sKeeper.KeeperList.TryAllocMutex` | components/esp_codec_dev/platform/audio_codec_data_i2s.c:56-66 | The mutex of the first listed node of the port, or a new one |
| `I2sKeeper.KeeperList.FindPair` | components/esp_codec_dev/platform/audio_codec_data_i2s.c:151-172 | The linked walk finds the pair that the list defines |
| `AdcFormat.RecordsFollowDriver` | components/esp_codec_dev/platform/audio_codec_data_adc.c:263-301 | In every state of a run, under every pattern of driver failures: the recorded patterns, widths and rate are the last configuration the driver accepted; that has the rate times the number of patterns as its total rate, within the driver's range, and the mode of exactly the units that its patterns use; enabled is running, and the driver was never configured while running |
| `AdcFormat.ReconfigureIsTransactional` | components/esp_codec_dev/platform/audio_codec_data_adc.c:491-519 | If the reconfiguration or the flush fails and the fallback succeeds, the whole format state is exactly as before |
| `AdcFormat.SetFmtKeepsInv` | components/esp_codec_dev/platform/audio_codec_data_adc.c:435-531 | set_fmt ends with the old format or the whole new one, and reports success only with the new one |
| `AdcFormat.FailedSetFmtKeepsFormatIff` | components/esp_codec_dev/platform/audio_codec_data_adc.c:435-531 | A failed set_fmt keeps the whole format if and only if not: the driver accepted the configuration, and then the flush and the fallback failed, or the restart did; then the format is the new one, which may be the old. The condition is on the outcomes of the calls, one by one |
| `AdcFormat.TotalRateInRange` | components/esp_codec_dev/platform/audio_codec_data_adc.c:266-286 | The total conversion rate stays within the driver's range, so its product does not wrap |
| `AdcFormat.RateIsAllowedIff` | components/esp_codec_dev/platform/audio_codec_data_adc.c:266-271 | The check by two rounded quotients passes exactly the rates whose total is in the range |
| `AdcFormat.EnableSucceedsIff` | components/esp_codec_dev/platform/audio_codec_data_adc.c:309-345 | When an enable succeeds, on the outcomes of its flush and its start or stop, its codes, and that it changes nothing but whether the driver runs |
| `AdcFormat.CloseStopsUnlessFailed` | components/esp_codec_dev/platform/audio_codec_data_adc.c:533-563 | A close keeps the format, and leaves the driver running exactly if it ran and its stop failed |
| `AdcFormat.SetFmtRestartsIff` | components/esp_codec_dev/platform/audio_codec_data_adc.c:480-530 | After a set_fmt the driver runs exactly if it ran and its stop failed or its restart, on whichever path, worked; a refused format changes nothing |
| `AdcFormat.FormatSelectsIff` | components/esp_codec_dev/platform/audio_codec_data_adc.c:453-478 | Which formats select channels, and which: without a mask the first ones, with a mask its bits, as many as the format has channels and all among the base patterns |
| `AdcFormat.FirstWidthIsRead` | components/esp_codec_dev/platform/audio_codec_data_adc.c:115-136 | The first pattern of a channel gives the width with which it is read: its own, or the chip's where it has none |
| `AdcFormat.MaskSelectsItsBits` | components/esp_codec_dev/platform/audio_codec_data_adc.c:466-477 | A channel mask selects exactly its set bits, in strictly rising order |
| `AdcData.AdcIf.Apply` | components/esp_codec_dev/platform/audio_codec_data_adc.c:263-301 | The object records a configuration if and only if the driver accepted it |
| `AdcData.AdcIf.Choose` | components/esp_codec_dev/platform/audio_codec_data_adc.c:453-478 | The channel selection of a format, or its refusal |
| `AdcData.AdcIf.SetFormat` | components/esp_codec_dev/platform/audio_codec_data_adc.c:435-531 | The object's set_fmt is that of the machine: its records stay those of the driver, which is not configured while it runs, and success means the new format |
| `AdcData.AdcIf.EnableData` | components/esp_codec_dev/platform/audio_codec_data_adc.c:309-345 | The object's enable is that of the machine, and its flag stays the truth about the driver |
| `AdcData.AdcIf.CloseData` | components/esp_codec_dev/platform/audio_codec_data_adc.c:533-563 | The object's close is that of the machine: after a failed stop the flag still says that the driver runs |
| `AdcData.AdcIf.ReadData` | components/esp_codec_dev/platform/audio_codec_data_adc.c:347-433 | A read of an open, enabled interface with a whole number of samples succeeds if and only if every driver read up to the last sample asked for succeeds untorn with at least one valid sample, and each of these can be converted; every other case has its code. A successful read returns exactly the first valid driver samples in order, as many as asked for, none lost or repeated across chunks, with nothing written behind them; it terminates |
| `AdcData.AdcIf.Fill` | components/esp_codec_dev/platform/audio_codec_data_adc.c:369-431 | The outer loop: each round yields a valid sample or fails |
| `AdcData.AdcIf.Parse` | components/esp_codec_dev/platform/audio_codec_data_adc.c:164-244 | Torn records are refused; the parsed buffer is not overrun |
| `AdcData.WholeRecords` | components/esp_codec_dev/platform/audio_codec_data_adc.c:585-590 | The raw buffer holds a whole number of records, at least one |
| `AdcSamples.PcmInRangeAndInvertible` | components/esp_codec_dev/platform/audio_codec_data_adc.c:120-123 | Each PCM value fits the output width and maps back to its raw code |
| `AdcSamples.PcmInjective` | components/esp_codec_dev/platform/audio_codec_data_adc.c:120-123 | Different codes of one width give different values |
| `AdcSamples.PrefixHoldsFirstValid` | components/esp_codec_dev/platform/audio_codec_data_adc.c:400-428 | The valid samples of what was consumed are the first valid samples of the whole stream |
| `AdcSamples.GoodStreamReadsWell` | components/esp_codec_dev/platform/audio_codec_data_adc.c:369-431 | When the samples asked for are valid and convertible and each driver read gives at least one whole record, the read succeeds |
| `AdcSamples.NothingPassedOver` | components/esp_codec_dev/platform/audio_codec_data_adc.c:400-428 | Where the first samples are all valid, a read uses up as many as it was asked for |
| `AdcSamples.ActiveWidthIsRead` | components/esp_codec_dev/platform/audio_codec_data_adc.c:138-149 | A sample of an active channel is read with the width of the first configured pattern of it, or the chip's |
| `AdcSamples.OtherWidthsAreRead` | components/esp_codec_dev/platform/audio_codec_data_adc.c:138-149 | One of another channel with the width of its first base pattern, and of an unknown channel with the chip's |
| `AdcSamples.WidthsThatFit` | components/esp_codec_dev/platform/audio_codec_data_adc.c:412-414 | Samples of 1 to 16 bits can be delivered as 16, and of 1 to 31 as 32 |
| `CodecRef.ListRefinesMap` | components/esp_codec_dev/device/common/codec_ref_mgr.c:82-158 | Any run of acquires and releases on the list returns what a map from identity to counts would, and never lists an identity twice |
| `CodecRef.AcquireRefinesMap` | components/esp_codec_dev/device/common/codec_ref_mgr.c:96-116 | An acquire is the map's, with counts that saturate at 255 |
| `CodecRef.ReleaseRefinesMap` | components/esp_codec_dev/device/common/codec_ref_mgr.c:133-157 | A release is the map's, and unlinks the identity exactly when it leaves the OPEN count at 0 |
| `CodecRef.OthersUntouched` | components/esp_codec_dev/device/common/codec_ref_mgr.c:82-158 | An operation on one identity leaves all others alone |
| `CodecRef.ReleaseUndoesAcquireIff` | components/esp_codec_dev/device/common/codec_ref_mgr.c:99-113 | A release undoes an acquire exactly when the count was not saturated and, for a new identity, the stage is OPEN |
| `CodecRef.AcquiresStopAt255` | components/esp_codec_dev/device/common/codec_ref_mgr.c:96-113 | However often an identity is acquired, its count stops at 255 and nothing else changes |
| `CodecRef.ReleasesStopAt0` | components/esp_codec_dev/device/common/codec_ref_mgr.c:133-157 | However often one is released, its count stops at 0 |
| `CodecRef.SameIsEqual` | components/esp_codec_dev/device/common/codec_ref_mgr.c:33-46 | The comparison is equality of known identities |
| `CodecRef.RefList.AcquireRef` | components/esp_codec_dev/device/common/codec_ref_mgr.c:82-117 | The linked list after an acquire |
| `CodecRef.RefList.ReleaseRef` | components/esp_codec_dev/device/common/codec_ref_mgr.c:119-158 | The linked list after a release |
| `CodecRef.RefList.FindNode` | components/esp_codec_dev/device/common/codec_ref_mgr.c:70-80 | The walk finds the first node of the identity |
| `MutexRace.RaceIsSafe` | components/esp_codec_dev/device/common/codec_ref_mgr.c:48-68 | Under every interleaving of any number of calls: the installed mutex is never destroyed, all calls that return one return it, and nobody destroys a mutex of another call or one twice |
| `MutexRace.InstalledMutexStays` | components/esp_codec_dev/device/common/codec_ref_mgr.c:48-68 | Once installed, the mutex never changes |
| `MutexRace.LosersAreDestroyed` | components/esp_codec_dev/device/common/codec_ref_mgr.c:66 | When all calls have returned, each created mutex is the installed one or was destroyed |
| `MutexRace.EachCallReturns` | components/esp_codec_dev/device/common/codec_ref_mgr.c:48-68 | Whatever the others do in between, a call returns after four steps of its own at most, with the installed mutex unless nothing was installed at its first step and no mutex could be created |
| `MutexRace.RefMutex.GetMutex` | components/esp_codec_dev/device/common/codec_ref_mgr.c:48-68 | One call, with or without a rival, returns the installed mutex and destroys its own only when it lost |
| `Es8388.SharedChipIsSafe` | components/esp_codec_dev/device/es8388/es8388.c:288-329 | Over all runs of any number of instances, even when starts and initialisations fail: a chip's OPEN count is its open instances and its ENABLE count at least its enabled ones; it is initialised only by its first open instance, started for every instance that becomes enabled, and stopped exactly with its last reference, which no other open instance can need |
| `Es8388.RunKeepsInv` | components/esp_codec_dev/device/es8388/es8388.c:387-410 | The invariant behind it holds after every run |
| `Es8388.NewKeepsInvIff` | components/esp_codec_dev/device/es8388/es8388.c:463-483 | A new instance keeps the counts if and only if the OPEN count is not saturated |
| `Es8388.DisableKeepsInvIff` | components/esp_codec_dev/device/es8388/es8388.c:303-314 | A disable keeps them if and only if the stop succeeds or another reference is left |
| `Es8388.NewIsMadeIff` | components/esp_codec_dev/device/es8388/es8388.c:463-487 | A new instance comes of enough memory and, for the first of a chip, an initialisation that succeeds; it takes one OPEN reference, and otherwise nothing has changed |
| `Es8388.SwitchesIff` | components/esp_codec_dev/device/es8388/es8388.c:288-329 | An open instance is enabled exactly if its chip starts, and disabled exactly if it holds a reference and either leaves another one or its chip stops; no other instance changes |
| `Es8388.LastDisableStopsIff` | components/esp_codec_dev/device/es8388/es8388.c:303-325 | After any covered run, disabling the last enabled instance of a chip stops it if and only if, since the chip was last without users, no start of it failed and no enabled instance of it was closed beside another open one; the ENABLE count is the enabled instances and these |
| `Es8388.FailedStartLeavesChipOn` | components/esp_codec_dev/device/es8388/es8388.c:316-325 | Concrete run: after a failed and a successful start the disable of the only user leaves the chip on |
| `Es8388.FailedStopBreaksSharing` | components/esp_codec_dev/device/es8388/es8388.c:303-325 | Concrete run: after a failed stop, a later disable stops the chip under an instance that uses it |
| `Es8388.Codec.SetEnabled` | components/esp_codec_dev/device/es8388/es8388.c:288-329 | The object over the linked list; it reports success exactly when the instance ends up as asked |
| `Es8388.Codec.CloseCodec` | components/esp_codec_dev/device/es8388/es8388.c:387-410 | The object over the linked list; it reports success exactly when the instance ends up closed |
| `Es8388.CreateCodec` | components/esp_codec_dev/device/es8388/es8388.c:463-487 | The instance made, or the reference given back |
| `CodecDev.FlagsCoverHardware` | components/esp_codec_dev/esp_codec_dev.c:153-242 | Over all runs, whatever the enable calls do: a side that is on has its flag set, a side is never disabled again after a successful disable, the device makes no software volume of its own, and no mirror is lost or freed twice |
| `CodecDev.DeleteFreesAll` | components/esp_codec_dev/esp_codec_dev.c:615-630 | A successful delete leaves the data path off, the codec on exactly if it is to be left so, and every mirror freed once; every curve too if and only if none whose size comes out as 0 was set on a device that had one |
| `CodecDev.CurveFreedOnceIff` | components/esp_codec_dev/esp_codec_dev.c:364-383 | After every run the device refers to its curve exactly if that is allocated, and each curve made before was freed once, if and only if no curve was set on a device that had one whose 32-bit size in bytes comes out as 0: without points, or with a multiple of 2 to the 29th |
| `CodecDev.ZeroCurveFreesTwice` | components/esp_codec_dev/esp_codec_dev.c:374-380 | Concrete runs: a curve of such a count, then a delete, and the one curve is freed twice |
| `CodecDev.FailedDeleteCanBeRetried` | components/esp_codec_dev/esp_codec_dev.c:579-630 | A failed delete frees neither handle nor mirror nor curve; the next one succeeds once the interfaces obey, and calls exactly the sides that are not yet off |
| `CodecDev.ObeyedClose` | components/esp_codec_dev/esp_codec_dev.c:579-613 | A close calls exactly the sides that are flagged and to be disabled |
| `CodecDev.FailedOpenTriesOff` | components/esp_codec_dev/esp_codec_dev.c:190-241 | An open that fails late has tried to switch off whatever it may have switched on; one that fails early changes nothing |
| `CodecDev.OkOpenNeedsFlags` | components/esp_codec_dev/esp_codec_dev.c:159-162 | Over all runs: an open that reports success leaves the device running only if it was not open or all its flags were set, and always if it was not open |
| `CodecDev.OkOpenRunsIff` | components/esp_codec_dev/esp_codec_dev.c:159-230 | When no enable call takes effect and still fails, an open that reports success leaves the device running if and only if it was not open or all its flags were set |
| `CodecDev.LateCloseHidesIdleCodec` | components/esp_codec_dev/esp_codec_dev.c:579-613 | Concrete run: a disable that takes effect and fails leaves the flag of a codec that is off, and an open then reports success |
| `CodecDev.OkOpenEnablesInOrder` | components/esp_codec_dev/esp_codec_dev.c:186-228 | A fresh open that succeeds enables the data path before the codec, each once, and opens the directions that are supported and ready |
| `CodecDev.OpenSucceedsIff` | components/esp_codec_dev/esp_codec_dev.c:153-242 | An open of a closed device succeeds if and only if some direction is ready, set_fmt takes the format, and each enable and set_fs there is succeeds; the code of every other case. A refused format leaves the device as it was |
| `CodecDev.CloseDoesAsSaid` | components/esp_codec_dev/esp_codec_dev.c:570-613 | After any run a close that succeeds leaves the data path off, and the codec on exactly if it is on and the last request said not to disable it |
| `CodecDev.NewIsIdle` | components/esp_codec_dev/esp_codec_dev.c:134-151 | A new device is idle, disables its codec when closed, and has a sound curve if it plays |
| `CodecDev.CurveIsTakenIff` | components/esp_codec_dev/esp_codec_dev.c:364-383 | When a curve is taken, the code of each refusal, and what a refusal leaves; all but one that realloc freed leave the device as it was |
| `CodecDev.HandlerIsTakenIff` | components/esp_codec_dev/esp_codec_dev.c:410-431 | When a volume handler is taken: by a device that plays and whose codec is open |
| `CodecDev.MirrorIsMadeIff` | components/esp_codec_dev/esp_codec_dev.c:304-319 | When a mirror is made, with a device that records, a size, and memory; one that exists is kept |
| `CodecDev.OpenAfterFailedCloseIsIdle` | components/esp_codec_dev/esp_codec_dev.c:159-162 | Concrete run: after a close that failed half way, an open reports success with the codec off |
| `CodecDev.Device.OpenDevice` | components/esp_codec_dev/esp_codec_dev.c:153-242 | The object after an open, with its rollback; the flags still cover the hardware |
| `CodecDev.Device.CloseDevice` | components/esp_codec_dev/esp_codec_dev.c:579-613 | The object after a close, with the flags of what could not be switched off |
| `CodecDev.Device.DeleteDevice` | components/esp_codec_dev/esp_codec_dev.c:615-630 | The object after a delete: on success the data path is off, and a failure keeps the handle, its mirror and its curve |
| `CodecDev.Device.ConfigureMirror` | components/esp_codec_dev/esp_codec_dev.c:304-319 | A mirror is made once, and the device keeps track of it |
| `CodecDev.Device.SetVolCurve` | components/esp_codec_dev/esp_codec_dev.c:364-383 | A new curve takes the place of the old one, and the device refers to it rightly unless the size in bytes came out as 0 while it had a curve |
| `CodecDev.Device.SetHandler` | components/esp_codec_dev/esp_codec_dev.c:410-431 | A volume handler of the caller takes the place of the software volume, and is not the device's to free |
| `Mirror.MirrorIsLossyFifo` | components/esp_codec_dev/codec_dev_mirror.c:38-59 | In every interleaving of writer and reader steps the mirror holds a suffix of the bytes of all successful writes, no longer than its capacity; positions delivered strictly increase; and what was written was delivered, dropped or is held |
| `Mirror.WriteFailsIff` | components/esp_codec_dev/codec_dev_mirror.c:111-122 | A write fails exactly when it looks for bytes to drop while the reader holds an item or has emptied the ring behind its back; its final send always fits |
| `Mirror.WriteKeepsLongestIff` | components/esp_codec_dev/codec_dev_mirror.c:111-124 | In every interleaving the send of a write keeps the longest suffix that fits if and only if the write has dropped nothing or the reader has given nothing back since its free size was read; else as many bytes as the reader gave back stay free |
| `Mirror.WriteDropsForNothing` | components/esp_codec_dev/codec_dev_mirror.c:111-119 | Concrete run: a write drops a byte although there is room for it |
| `Mirror.WriteFailsOnEmptyRing` | components/esp_codec_dev/codec_dev_mirror.c:112-117 | Concrete run: a write fails although the ring is empty |
| `Mirror.MirrorBuffer.WriteBytes` | components/esp_codec_dev/codec_dev_mirror.c:97-124 | An uninterrupted write leaves the longest suffix of the old content and the data that fits, or fails exactly when an item of the reader is in the way |
| `Mirror.MirrorBuffer.MakeRoom` | components/esp_codec_dev/codec_dev_mirror.c:112-119 | Only as much is dropped as is needed |
| `Mirror.MirrorBuffer.ReadBytes` | components/esp_codec_dev/codec_dev_mirror.c:126-160 | Whatever is written between its receives or while they wait, a read copies bytes of the stream in their order, each once, and times out only once all these writes have arrived and no byte is held, or while another item is out; when nothing arrives, it copies the oldest bytes, as many as there are and are asked for |
| `Mirror.MirrorBuffer.ReceiveInto` | components/esp_codec_dev/codec_dev_mirror.c:38-48 | One item copied to its place in the buffer |
| `SwVol.RampClosedForm` | components/esp_codec_dev/audio_codec_sw_vol.c:81-94 | After any number of frames the gain has moved that many steps towards its aim, and no further than to it |
| `SwVol.RampIsMonotone` | components/esp_codec_dev/audio_codec_sw_vol.c:81-94 | The gain is monotone and never overshoots |
| `SwVol.RampConvergesIff` | components/esp_codec_dev/audio_codec_sw_vol.c:113-119 | A ramp reaches the new gain if and only if the change is at least one per frame of the transition; a smaller change never takes place |
| `SwVol.RampTakesItsTime` | components/esp_codec_dev/audio_codec_sw_vol.c:113-119 | A step is the change per frame of the transition cut towards zero; a ramp that moves arrives exactly when its steps reach as far as the change: not before the time set, and by twice that |
| `SwVol.SplitsDoNotShow` | components/esp_codec_dev/audio_codec_sw_vol.c:50-98 | How whole frames are split into buffers does not show in the output, although the path at constant gain leaves the step alone |
| `SwVol.FastPathsAgree` | components/esp_codec_dev/audio_codec_sw_vol.c:64-76 | The paths at constant gain and in silence give what the ramping loop would |
| `SwVol.ScalingFits` | components/esp_codec_dev/audio_codec_sw_vol.c:71-79 | The 32-bit product never overflows for any 16-bit gain, and the result fits 16 bits for gains up to unity |
| `SwVol.Volume.Process` | components/esp_codec_dev/audio_codec_sw_vol.c:50-98 | The samples are scaled in place as the ramp says, and the ramp is where the frames leave it |
| `SwVol.Volume.ScaleFrames` | components/esp_codec_dev/audio_codec_sw_vol.c:77-95 | The loop over frames and channels |
| `SwVol.Volume.SetGain` | components/esp_codec_dev/audio_codec_sw_vol.c:100-125 | The ramp towards a new gain, or the gain at once on a closed volume |
| `SwVol.Volume.Open` | components/esp_codec_dev/audio_codec_sw_vol.c:34-48 | Only 16-bit streams open, whatever their channels and rate, and the ramp goes on |
| `VolMap.RegistersComeBackIff` | components/esp_codec_dev/esp_codec_dev_vol.c:9-48 | Every register in range, in both orientations, comes back from its decibel value if and only if the decibel values increase from end to end or there is but one register |
| `VolMap.DecibelsComeBackNear` | components/esp_codec_dev/esp_codec_dev_vol.c:9-48 | A decibel value comes back less than one step off, clamped to the ends |
| `VolMap.RegisterIsCutTowardsZero` | components/esp_codec_dev/esp_codec_dev_vol.c:9-22 | Between the ends a register is the value on the line, cut towards zero |
| `VolMap.RegistersBeyondAreTheEnds` | components/esp_codec_dev/esp_codec_dev_vol.c:25-48 | Registers between the ends have the decibels on the line, in either orientation, and those beyond have those of the nearer end |
| `VolMap.GetVolDb` | components/esp_codec_dev/esp_codec_dev.c:96-119 | The loop computes the curve's value |
| `VolMap.CurveHitsPoints` | components/esp_codec_dev/esp_codec_dev.c:105-117 | A curve hits all its points but one at volume 0 |
| `VolMap.CurveIsMonotone` | components/esp_codec_dev/esp_codec_dev.c:96-119 | A curve of at least two points does not fall from volume 1 on |
| `VolMap.OnePointIsMonotoneIff` | components/esp_codec_dev/esp_codec_dev.c:105-118 | A curve of one point is monotone if and only if it is not below 0 dB or no volume lies below it |
| `VolMap.VolumeZeroIsMute` | components/esp_codec_dev/esp_codec_dev.c:96-119 | Volume 0 is -96 dB whatever the curve, so the curve is monotone from there on if and only if volume 1 is no quieter; below its first point a curve is its first line drawn on |
| `Base64.CanonicalInvertsEncode` | tools/cyberdeck_cli.py:356-368 | The canonical decoder accepts exactly what the encoder produces, and inverts it |
| `Base64.CanonicalIffClean` | tools/cyberdeck_cli.py:363-367 | What strict decoding accepts is canonical if and only if no bit left over by the padding is set |
| `Base64.KnownTexts` | tools/cyberdeck_cli.py:366 | The encoder agrees with texts of section 10 of RFC 4648 |
| `Base64.WrittenIsRead` | tools/cyberdeck_cli.py:363-366 | Every text of symbols reads as these symbols |
| `Base64.CharactersAreTheAlphabet` | tools/cyberdeck_cli.py:363-366 | The characters are those of table 1 of RFC 4648, each at its place there |
| `ScreenDump.AcceptedIff` | tools/cyberdeck_cli.py:134-200 | Of any frames read: a reply is accepted if and only if its end comes before any failure, repeats agree, the indices are 0 up to the number declared, each text is canonical, and size and CRC of the bytes are as declared |
| `ScreenDump.AcceptedHasDeclaredSums` | tools/cyberdeck_cli.py:182-200 | The bytes of an accepted reply have the size and, where one is declared, the CRC of its first frame, and its frames are frames of the request that were read |
| `ScreenDump.OrderAndRepeatsDoNotMatter` | tools/cyberdeck_cli.py:108-132 | Replies that differ in the order and in identical repeats of chunk frames, and in any other frames between, are accepted alike, with the same bytes |
| `ScreenDump.MergesIffAgree` | tools/cyberdeck_cli.py:124-132 | Merging succeeds exactly when no repeat conflicts, and keeps what was seen |
| `ScreenDump.ValidIffComplete` | tools/cyberdeck_cli.py:109-122 | The chunks pass exactly when the indices are 0 up to the number declared and each text is canonical |
| `ScreenDump.ChunkTextsAreCanonical` | tools/cyberdeck_cli.py:113-119 | Chunks and fs.write data pass the same texts |
| `ScreenDump.PayloadIsCheckedIff` | tools/cyberdeck_cli.py:239-244 | The payload of an accepted reply is the bytes that were checked if and only if every repeated chunk is empty, and so is every chunk that a start frame carries; as it is without either |
| `ScreenDump.StartChunkChangesPayload` | tools/cyberdeck_cli.py:167-172 | Concrete reply: a chunk in the start frame is not checked, but its bytes are in the payload |
| `ScreenDump.RepeatChangesPayload` | tools/cyberdeck_cli.py:239-244 | Concrete reply: an accepted repeat changes the payload |
| `ScreenDump.ForeignFramesDoNotMatter` | tools/cyberdeck_cli.py:156-158 | Frames of other requests are as if they were not there |
| `ScreenDump.Exchange` | tools/cyberdeck_cli.py:153-200 | The loop over the frames and the checks after it |
| `Pieces.SortedIsAssembledIff` | tools/cyberdeck_cli.py:242-244 | Sorting and joining numbered pieces gives each number's data once if and only if whatever is repeated is empty |
| `Pieces.MoreIsAssembledIff` | tools/cyberdeck_cli.py:242-244 | Further pieces beside these show in what is joined as soon as one of them has data |
| `Pieces.SortSorts` | tools/cyberdeck_cli.py:243 | The sort orders the pieces and loses none |
| `NdJson.FragmentationDoesNotMatter` | tools/cyberdeck_cli.py:86-106 | Any two ways of reading the same bytes give the same frames: the objects among the terminated lines |
| `NdJson.FramesAreObjects` | tools/cyberdeck_cli.py:88-106 | The frames are the objects among the terminated lines of all that was read before the first empty read |
| `NdJson.EachObjectIsAFrame` | tools/cyberdeck_cli.py:98-106 | Each line that is an object gives its frame, at its place; any other line gives none |
| `NdJson.LinesAreUnique` | tools/cyberdeck_cli.py:98-99 | A text is read as lines and an unterminated tail in one way only |
| `NdJson.TextOfLines` | tools/cyberdeck_cli.py:98-99 | The lines and the tail make up the text |
| `NdJson.IterFrames` | tools/cyberdeck_cli.py:86-106 | The outer loop over the reads |
| `NdJson.TakeLines` | tools/cyberdeck_cli.py:98-106 | The inner loop takes all terminated lines and leaves the tail |
| `SplitFlush.EachRowIsSentOnce` | components/esp_lvgl_port/src/lvgl8/esp_lvgl_port_disp.c:556-579 | Each row of the area is sent by exactly one transfer |
| `SplitFlush.TransfersFollow` | components/esp_lvgl_port/src/lvgl8/esp_lvgl_port_disp.c:556-579 | The transfers start at the top, end at the bottom, and each goes on where the one before stopped |
| `SplitFlush.TransferFits` | components/esp_lvgl_port/src/lvgl8/esp_lvgl_port_disp.c:557-565 | Each transfer fits the buffer and has a pixel for each place it names |
| `SplitFlush.FewestTransfers` | components/esp_lvgl_port/src/lvgl8/esp_lvgl_port_disp.c:556-560 | No split into groups of rows that fit the buffer takes fewer transfers |
| `SplitFlush.PlacesAreRowByRow` | components/esp_lvgl_port/src/lvgl8/esp_lvgl_port_disp.c:564-569 | An area has one place for each of its pixels, row by row |
| `SplitFlush.PixelsAreOfSource` | components/esp_lvgl_port/src/lvgl8/esp_lvgl_port_disp.c:565-577 | The pixel a transfer has for a place is that of the source |
| `SplitFlush.Flush` | components/esp_lvgl_port/src/lvgl8/esp_lvgl_port_disp.c:556-579 | The callback draws these transfers, in order |
| `SplitFlush.CopyRows` | components/esp_lvgl_port/src/lvgl8/esp_lvgl_port_disp.c:564-569 | The copying loops |

## Left out

- BothDirectionsShareTheFrame: assumes driver calls that succeed, opens whose two calls are not interleaved with another open, and formats that fit (frames under 256 bits, channel counts that divide the shared frame). What holds without the last two is exactly `I2sExact.RxThenTxAgreesIff`, `I2sExact.AloneProgrammesFrameIff` and `I2sExact.NextOpenSharesFrameIff`.
- WiderSharesFrameIff: like all of I2sExact, assumes driver calls that succeed.
- MutexPerPort: assumes at most 256 nodes on a port, beyond which `I2sKeeper.RemoveKeepsInvIff` and `I2sKeeper.OpensThenCloseIff` say what happens, and mutex creations that succeed.
- SharedChipIsSafe: assumes counts below 255, chips of a known identity and hardware stops that succeed; `Es8388.NewKeepsInvIff` and `Es8388.DisableKeepsInvIff` say that these are needed.
- PayloadIsCheckedIff: takes decoding that is not strict as any function that decodes canonical texts rightly.
- CheckCompatible: takes nodes whose enabled directions have a format, as esp_codec_dev_open sees to; the code would divide by a channel count of 0.
- ReadBytes: writes come between receives as a whole; finer interleavings are covered by `Mirror.MirrorIsLossyFifo`. A read without a time limit that still waits after the last arrival has not returned; the model gives it up there.
- WriteBytes: runs without interruption; interleavings are covered by `Mirror.WriteKeepsLongestIff` and `Mirror.WriteFailsIff`.
- CurveFreedOnceIff: takes a realloc to no bytes to free its argument and to return nothing, as the usual C libraries do; the language leaves it open. The points of a curve are modelled in VolMap.
- IterFrames: runs to its end, where the generator may be left early by its caller.
- ReadData: counts samples and whole result records; their encoding in bytes and the optional channel filter are not modelled.
- SetGain: takes an open volume whose duration and rate are not 0, because the code divides by both; it takes the gain as any 16-bit number and the step as an exact quotient; the exponential and the rounding of float are not modelled.
- RegistersComeBackIff: is about exact numbers, not float.
- Flush: takes areas that have pixels and buffers that hold a row, because the code divides by the number of rows that fit; the paths without a transport buffer and the semaphores are not modelled.
- Process: takes an open volume of at least one channel, because the code divides by the size of a frame.
- PDM modes, clock sources and mclk_multiple of the I2S driver, and the reading and writing of I2S data: calls into unseen drivers.
- Data widths and slot masks inside a slot, and the width of the word select signal: the frame is the slots, their width and the rate.
- I2S interfaces that are not open, lock timeouts that let a call go on unlocked, and IDF versions before 5: outside the protocols above.
- SetEnabled: locking the reference list and reading the chip's identity are assumed to succeed, as in CloseCodec and CreateCodec. Its enable and close do not look at whether the identity was read, and a disable whose lock fails has switched the amplifier off before it returns the error.
- Mixing enables of both directions with single ones on one node: the two are modelled and proved apart.
- The expansion of a single-unit ADC configuration to patterns, and the checks of patterns before the driver is created: one branch each.
- es8311.c and es8389.c: repeat the protocol of es8388.c; register contents and the power amplifier pin say nothing about it.
- Volume, gain and mute setters of a device beyond the curve and the handler: they change no flag of the lifecycle.
- Using a device handle after its deletion.
- The events.read path, argument parsing and file output of the CLI; JSON parsing is any function of a line, and true counts as the number 1 where Python compares it so.
- Display, touch, camera, network and shell components: no shared protocol to prove.
