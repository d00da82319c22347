# Entropy transfer protocols and statistics, in Dafny

The repository measures entropy sources on ESP32 boards. Firmware and host
tools exchange the measured bytes over UDP and serial lines and compute
statistics over them. This project models the parts whose correctness is not
visible in any single function, and proves what they promise together.
`dafny verify dfyconfig.toml` checks all of it.

## What is modelled

**RF-actuated boot entropy.** A client says HELLO, waits for START, draws
entropy per received BURST and uploads raw bytes and jitter deltas in chunks;
a collector demultiplexes by peer and trial, reassembles and appends to
aggregate files.

- `AebMessage`: the 40-byte header, as the C and the Python side write and read it.
- `AebUpload`: `send_raw_stream` as loops over device buffers and a socket; `AebWire`:
  its datagrams field by field.
- `AebCollector`: one turn of the collector's loop as a step of a state machine,
  result lines and stimulus included; `AebStimulus` and `AebRow` say what it answers
  and what every column of a filed row holds, without the functions of that machine.
- `AebCollectorLoop`: the collector as classes with mutable trial objects and
  append-only outputs, proved to be that state machine.
- `AebCollectorRun`, `AebExceptions`: what every run keeps, exactly which
  deliveries raise, and concrete runs that do.
- `AebNetwork`, `AebLossyUpload`: an upload over a network that drops,
  duplicates and reorders datagrams amid any other traffic, up to RAW_END and after it.
- `AebTrial`, `AebJitter`, `AebReport`, `AebLine`, `AebStart`: the device side: sampling,
  the wrapping cycle counter, the result line, the start handshake, and one whole trial.
- `AebEndToEnd`, `AebMatch`: device and collector together, and the columns in which
  the collector compares the device's report with what it stored.

**Entropy capsule bootstrap.** `TebCodec` holds the hello and capsule formats of
the client and both servers. `TebClient` holds the retained boot counter and the
accept pipeline, which ends in a single credit to the entropy pool. `TebNetwork`
puts server, device and network together for the post-quantum profile; `TebReplay`
is about resets and replay, and `TebBeacon` is the serve loop of the Ed25519 profile.
`TebLayout` gives the messages byte by byte and says acceptance in those terms.

**Streaming statistics.** `RngStats`, `RngCounts` and `RngChiSquare` (reboot
slices), `PufDistances` (PUF samples) and `SramStats` use exact integers; `RngSums`
writes their sums out over the positions of a file. `Bits` relates words to bit
strings, and `BitCounts` counts to numbers of positions.

**Streaming parsers.** `MarkerScan` is the raw capture's marker scan and bounded
collection, `CaptureMeta` what it learns from the lines in front of the marker, and
`CaptureTarget` how many bytes it therefore collects. `SramText` and `SramCapture`
are the SRAM dump's printer and reader, character by character, and `SramCommand`
is the firmware's command line.

**Deterministic generator.** `DeterministicRng` is the generator of the lab keys, and
`RngVectors` holds known answers of it.

`Bytes` holds bytes, words, encodings and buffer helpers; `PyText` is Python's
`strip`, `split`, `partition` and `int` on ASCII text; `HexText` is hexadecimal text.

## Hypotheses

- `AebCollector.Config.Sound`: UTF-8 decoding leaves ASCII as it is, in the first
  character and in whole datagrams. `AebExceptions.PlainIsSound` shows a decoder
  with this property. What `int` makes of text that is not ASCII is a parameter.
- `AebUpload.Fits`: both buffers and one more chunk fit 32 bits, so the
  `uint32_t` sums do not wrap. Every chunk size from 1 up is modelled.
- `AebLossyUpload.Session.Valid`: the upload is one that the firmware can send,
  that is, its jitter does not overrun the payload buffer.
- `AebCollector.SLEEP_LIMIT_MS` and `SEND_LIMIT`: CPython's `time.sleep` counts
  nanoseconds in 64 bits, and a UDP datagram over IPv4 carries at most 65507 bytes.
- `CaptureTarget`: no line in front of the marker is longer than 4096 bytes; a
  longer one may be cut by the scan (`MarkerScan.LongLine`).
- `AebTrial.Limits.Valid`: the cycle counter has at least 1 MHz, and the two
  static buffers fit a 32-bit address space.
- Hashes, signatures, KEM and HKDF are functions. `AebLossyUpload.MatchIff`,
  `AebLossyUpload.JitterMatchIff` and `AebMatch.ReportedMatchIff` assume that the two
  strings they compare do not collide under SHA-256; both ends compute one hash.
- In `TebNetwork`, `SingleCredit` and the step invariant assume nothing about the
  libraries, and neither do the replay theorems of `TebReplay`.
  `SameCapsuleSameHello` and `CapsuleAgreement` are about runs in which no
  delivered datagram carries a valid signature on bytes the server has not
  signed before (`NoForgery`), and the waiting boot's hello does not collide
  under the hash with a hello the server has served (`NoHelloCollision`). Both
  speak of the deliveries at hand, not of all strings. Only the shared secret
  needs decapsulation to undo encapsulation (`KemCorrect`).

## What the proofs found

- A trial with chunks above 4056 bytes of payload can never be complete, because
  the collector receives 4096 bytes at most; up to that size completeness is
  exactly the arrival of all raw chunks (`LossyUpload`). A jitter chunk above that
  size loses its deltas from the 1015th on.
- When jitter cannot be packed as signed 32-bit residuals, or the reported
  interval is not a number, finalizing raises after it has appended the raw
  bytes: the raw aggregate then holds bytes of no row. `RawAggregateExactIff` is
  the exact condition for one turn, `RunExactIff` for a run, and `OrphanRun` is
  four datagrams that do it from program start.
- Apart from the operating system's own failures, an exception ends the collector
  in exactly three cases (`CrashesIff`): a result line whose trial is not a number
  (`BadTrialRaises`), a HELLO whose stimulus raises, and the above. A stimulus
  raises exactly when a number does not fit 32 bits, the start delay cannot be
  slept, or a burst is too long for UDP (`StimulusFitsIff`, `WideIntervalRaises`,
  `NegativeDelayRaises`, `LongPayloadRaises`).
- A repeated HELLO throws the chunks collected so far away and burns a capture
  id (`RepeatedHello`).
- With payloads of one to three bytes the firmware writes past its jitter buffer
  as soon as there is a delta, and only then (`JitterFitsIff`, `OneDeltaOverruns`).
- The Python server accepts a hello with nonzero flags, the C server does not
  (`NonzeroFlagsAccepted`). The C server reads 88 bytes and so counts and answers
  a longer datagram that starts with a hello (`CountedIff`, `LongHelloCounted`).
- The Python server packs an unbounded number into 32 bits and so answers exactly
  the first 2^32 - 1 hellos and no other after that (`AnsweredInAll`); for the same
  reason it never repeats a sequence number (`SequenceNeverRepeats`), which the C
  server does every 2^32 hellos (`SequenceRepeatsIff`).
- The marker scan stops at the same place for every split of the stream, but the
  bytes it collects can differ: only line breaks already buffered with the
  marker are skipped, and payload bytes that look like line breaks are skipped
  with them (`SplitIndependentIff`, `SplitChangesTheFile`, `StepsOverLineEndIff`).
- A metadata line that arrives in the same read as the marker is never looked at,
  and the capture then goes for 256 MiB (`TargetIff`, `AnnouncementLost`). A host
  that triggered the firmware itself is safe from that (`TriggeredTarget`).
- The firmware's command buffer empties at every 32nd character and drops it, so
  a 39-character line ending in a FILL command arms its pattern (`AcceptedIff`).

## Model

| member | source | states |
|---|---|---|
| `AebMessage.ParseOfMake` | rf-actuated-boot-entropy/scripts/aeb_collector.py:151-193 | decoding an encoded message gives it back with the payload split at byte 40, and decoding its truncation by any receive buffer that keeps the header only shortens the payload |
| `AebMessage.MakeOfParse` | rf-actuated-boot-entropy/scripts/aeb_collector.py:151-193 | re-encoding any datagram the parser accepts reproduces it byte for byte, so the header is a bijection |
| `AebMessage.BuildMsg` | rf-actuated-boot-entropy/src/main.c:145-158 | the firmware writes the same 40 bytes as the collector's encoder, in place |
| `AebMessage.ParseMsg` | rf-actuated-boot-entropy/src/main.c:247-269 | the firmware's parser accepts exactly what the collector's does, reads the same fields, and each error code is returned exactly for its own defect |
| `AebMessage.FirstByteIsA` | rf-actuated-boot-entropy/scripts/aeb_collector.py:151-159 | every accepted message starts with the letter A |
| `AebCollector.NoResultLine` | rf-actuated-boot-entropy/scripts/aeb_collector.py:196-203 | so it is never taken for a result line |
| `PyText.FieldsOfPrinted` | rf-actuated-boot-entropy/scripts/aeb_collector.py:205-211 | splitting a printed line of a tag and key=value tokens and partitioning each token gives back its pairs |
| `PyText.DecimalParses` | rf-actuated-boot-entropy/scripts/aeb_collector.py:699 | int() reads back what the firmware prints as an unsigned decimal |
| `AebCollector.PrintedResultLine` | rf-actuated-boot-entropy/scripts/aeb_collector.py:196-211 | a printed result line is read as its trial and its fields, or ends in the error of int() on the trial |
| `Bytes.UnpackOfPack` | rf-actuated-boot-entropy/scripts/aeb_collector.py:223-226 | unpacking packed 32-bit deltas gives them back |
| `Bytes.PackOfUnpack` | rf-actuated-boot-entropy/scripts/aeb_collector.py:363-369 | packing what was unpacked gives the payload less the bytes past its last whole group of four |
| `AebCollectorRun.ResidualsDecode` | rf-actuated-boot-entropy/scripts/aeb_collector.py:229-233 | every residual read back as a signed 32-bit number plus the interval is the delta of the delta file |
| `AebUpload.SendBinaryMsg` | rf-actuated-boot-entropy/src/main.c:400-422 | one datagram holding header and payload is sent, or none when the payload exceeds the buffer or the socket fails |
| `AebUpload.FillJitterPayload` | rf-actuated-boot-entropy/src/main.c:469-472 | the in-place buffer starts with the packed values of the chunk |
| `AebUpload.PiecesCover` | rf-actuated-boot-entropy/src/main.c:438-454 | the pieces a buffer is cut into are, in order, the buffer |
| `AebUpload.PieceStartsInside` | rf-actuated-boot-entropy/src/main.c:427 | the rounded-up count names exactly the pieces that start inside the buffer |
| `AebUpload.SendRawParts` | rf-actuated-boot-entropy/src/main.c:438-454 | the raw loop sends the chunks of the buffer in order up to the first failing send |
| `AebUpload.SendNextJitter` | rf-actuated-boot-entropy/src/main.c:460-480 | one turn of the jitter loop sends the next packed chunk, or overruns the payload buffer, or the send fails |
| `AebUpload.SendJitterParts` | rf-actuated-boot-entropy/src/main.c:456-480 | the jitter loop sends the packed chunks in order up to the first failing send; it overruns its buffer at once iff there are deltas and payloads under four bytes |
| `AebUpload.JitterFitsIff` | rf-actuated-boot-entropy/src/main.c:428-471 | every packed jitter chunk fits the payload buffer iff payloads have at least four bytes or there is no delta, and otherwise the first one overruns it |
| `AebUpload.OneDeltaOverruns` | rf-actuated-boot-entropy/src/main.c:428-471 | payloads of one byte and any one delta: four bytes are written to a buffer of one |
| `AebUpload.SendRawStream` | rf-actuated-boot-entropy/src/main.c:424-484 | for every chunk size: an upload sends RAW_BEGIN, all raw chunks, all jitter chunks and RAW_END in order, stopping at the first send that fails; where the jitter overruns, it has sent exactly what comes before the jitter |
| `AebWire.MessageLayout` | rf-actuated-boot-entropy/src/main.c:145-158 | every datagram byte by byte: magic, version, type, the four numbers little-endian at their offsets, the nonce, the payload |
| `AebWire.UploadSays` | rf-actuated-boot-entropy/src/main.c:424-485 | an upload is RAW_BEGIN, the rounded-up number of raw chunks, the rounded-up number of jitter chunks, and RAW_END, the two ends announcing the number of raw chunks and of bytes |
| `AebWire.RawPartSays` | rf-actuated-boot-entropy/src/main.c:438-447 | raw chunk i holds the bytes from i times the chunk size on, cut to the end of the buffer, and says its number and its length |
| `AebWire.JitterPartSays` | rf-actuated-boot-entropy/src/main.c:456-476 | jitter chunk j holds, packed, the deltas from j times a quarter of the chunk size on, but at least one, and says its number and its length |
| `AebCollectorLoop.Sorted` | rf-actuated-boot-entropy/scripts/aeb_collector.py:365 | the in-place selection equals the ascending list of the keys |
| `AebCollectorLoop.CollectJitter` | rf-actuated-boot-entropy/scripts/aeb_collector.py:363-369 | the loop over sorted chunk indices yields the values of every chunk's whole four-byte groups in index order |
| `AebCollectorLoop.TrialState.Take` | rf-actuated-boot-entropy/scripts/aeb_collector.py:735-741 | RAW_BEGIN, RAW_CHUNK and JITTER_CHUNK change exactly the fields they name |
| `AebCollectorLoop.TrialState.Close` | rf-actuated-boot-entropy/scripts/aeb_collector.py:742-746 | RAW_END supplies only the counts that are missing |
| `AebCollectorLoop.Collector.Reassemble` | rf-actuated-boot-entropy/scripts/aeb_collector.py:392-421 | the raw half of finalizing: complete bytes, or the partial join, and the missing list |
| `AebCollectorLoop.Collector.PackJitter` | rf-actuated-boot-entropy/scripts/aeb_collector.py:423-434 | the jitter half: deltas and residuals are packed, or packing raises |
| `AebCollectorLoop.Collector.FinalizeTrial` | rf-actuated-boot-entropy/scripts/aeb_collector.py:372-544 | the whole of finalizing over the mutable objects: the row that is filed, whose every column `RowColumns` states, or what is left behind when it raises |
| `AebRow.RowColumns` | rf-actuated-boot-entropy/scripts/aeb_collector.py:385-529 | every column of every filed row in terms of the trial: complete iff chunks are expected, none of them is missing and together they are long enough; then the raw file is their join cut to the announced length, else the partial file is all chunks there are by ascending index; the missing indices ascending; the deltas of all jitter chunks by ascending index; residuals that read back signed as delta less interval; and the three digests, each compared with the reported text of its own name |
| `AebRow.RaisesIff` | rf-actuated-boot-entropy/scripts/aeb_collector.py:431-434 | finalizing raises iff some delta is out of the signed 32-bit range around the interval, reported or of the START |
| `AebRow.RaisedAppends` | rf-actuated-boot-entropy/scripts/aeb_collector.py:396-409 | when it raises, the raw bytes of a complete trial have been appended, and nothing of any other |
| `AebCollectorLoop.Collector.Append` | rf-actuated-boot-entropy/scripts/aeb_collector.py:407-474 | a filed row extends the four aggregates; an exception leaves only the raw bytes appended |
| `AebCollectorLoop.Collector.SendStimulus` | rf-actuated-boot-entropy/scripts/aeb_collector.py:557-629 | START, the delay behind it and the bursts in turn, until a number does not pack, the delay cannot be slept or a datagram is too long to send |
| `AebCollectorLoop.Collector.Announce` | rf-actuated-boot-entropy/scripts/aeb_collector.py:718-722 | the next capture id is taken and the stimulus sent; an exception leaves the datagrams already sent |
| `AebStimulus.StimulusSays` | rf-actuated-boot-entropy/scripts/aeb_collector.py:557-613 | everything a HELLO is answered with, as received: nothing if a number of the START does not fit; else a START with the numbers of the command line before those of the HELLO, and the bursts numbered from 0, each with its own sleep and payload, up to the first that cannot be sent |
| `AebStimulus.HelloSays` | rf-actuated-boot-entropy/scripts/aeb_collector.py:726-732 | a HELLO takes the next id, sends its stimulus to its own sender in order, and starts a trial iff all of it went out |
| `AebCollectorLoop.Collector.OnHello` | rf-actuated-boot-entropy/scripts/aeb_collector.py:718-729 | a HELLO takes the next capture id, sends the stimulus and replaces the live state with a fresh object |
| `AebCollectorLoop.Collector.OnEnd` | rf-actuated-boot-entropy/scripts/aeb_collector.py:742-766 | RAW_END finalizes the trial object and drops it from the table |
| `AebCollectorLoop.Collector.OnDatagram` | rf-actuated-boot-entropy/scripts/aeb_collector.py:716-766 | the branches on the message type, for live and unknown keys |
| `AebCollectorLoop.Collector.Note` | rf-actuated-boot-entropy/scripts/aeb_collector.py:697-710 | a result line updates the result fields of its live trial |
| `AebCollectorLoop.Collector.OnData` | rf-actuated-boot-entropy/scripts/aeb_collector.py:697-766 | a received datagram is a result line, a message or neither |
| `AebCollectorLoop.Collector.Turn` | rf-actuated-boot-entropy/scripts/aeb_collector.py:685-766 | one turn of the loop over a table of mutable trial objects is one step of the state machine |
| `AebCollectorLoop.Collector.Serve` | rf-actuated-boot-entropy/scripts/aeb_collector.py:684-766 | the loop over any deliveries is a run of the state machine |
| `AebCollectorRun.StepKeepsInvariant` | rf-actuated-boot-entropy/scripts/aeb_collector.py:685-766 | whatever arrives, one turn keeps the aggregates, capture ids, counts and rows in step |
| `AebCollectorRun.RunKeepsInvariant` | rf-actuated-boot-entropy/scripts/aeb_collector.py:684-766 | so does every run, for any interleaving of peers, trials, timeouts and undecodable datagrams |
| `AebCollectorRun.WholeRun` | rf-actuated-boot-entropy/scripts/aeb_collector.py:673-766 | from program start: the joint and delta aggregates are their initial contents followed by the rows' contributions in order, delta and residual grow alike, ids are unique, completed equals the complete rows and never exceeds the target |
| `AebCollectorRun.AggregateFiles` | rf-actuated-boot-entropy/scripts/aeb_collector.py:408-462 | after every run each of the four aggregate files is what it held at the start and the files of the rows of its own kind, in row order; only an exception leaves further raw bytes |
| `AebCollectorRun.RawAggregateExactIff` | rf-actuated-boot-entropy/scripts/aeb_collector.py:401-458 | a turn leaves the raw aggregate equal to the complete rows' bytes if and only if it is not a RAW_END that completes a trial whose jitter cannot be packed |
| `AebCollectorRun.RunExactIff` | rf-actuated-boot-entropy/scripts/aeb_collector.py:684-766 | over a whole run the raw aggregate is exact at the end iff no event orphaned raw bytes in the state it met |
| `AebCollectorRun.CrashesIff` | rf-actuated-boot-entropy/scripts/aeb_collector.py:684-766 | an exception ends the loop iff the datagram is a result line whose trial is no number, a HELLO whose stimulus raises, or the RAW_END of a live trial with jitter that does not pack |
| `AebCollectorRun.StimulusFitsIff` | rf-actuated-boot-entropy/scripts/aeb_collector.py:557-629 | the stimulus raises unless every number of the START fits its field, the start delay can be slept, and every burst packs and fits a UDP datagram |
| `AebExceptions.BadTrialRaises` | rf-actuated-boot-entropy/scripts/aeb_collector.py:697-699 | the concrete line "[AEB_RESULT] trial=x" ends any running collector |
| `AebExceptions.WideIntervalRaises` | rf-actuated-boot-entropy/scripts/aeb_collector.py:557-565 | with an interval of 2^32 on the command line the first HELLO ends the collector before any START is sent |
| `AebExceptions.NegativeDelayRaises` | rf-actuated-boot-entropy/scripts/aeb_collector.py:563-568 | with any negative start delay the first HELLO gets its START and then ends the collector |
| `AebExceptions.LongPayloadRaises` | rf-actuated-boot-entropy/scripts/aeb_collector.py:609-616 | with a burst payload that no UDP datagram can carry the collector ends behind the START |
| `AebExceptions.OrphanRun` | rf-actuated-boot-entropy/scripts/aeb_collector.py:401-458 | four concrete datagrams after which the raw aggregate of any collector without overrides, and with a start delay that can be slept, holds a byte of no row |
| `AebCollectorRun.OthersLeaveItAlone` | rf-actuated-boot-entropy/scripts/aeb_collector.py:697-733 | traffic of other peers or trials neither changes a live trial nor files a row for it |
| `AebCollectorRun.RepeatedHello` | rf-actuated-boot-entropy/scripts/aeb_collector.py:718-723 | a repeated HELLO starts the trial over, and the replaced capture id is in no row of any later run; if its stimulus raises, the old trial stays and the loop ends |
| `AebNetwork.MessageStep` | rf-actuated-boot-entropy/scripts/aeb_collector.py:687-716 | a well-formed message of any length is handled as itself with its payload cut by the 4096-byte receive |
| `AebNetwork.CollectsWhatArrives` | rf-actuated-boot-entropy/scripts/aeb_collector.py:731-741 | throughout an upload the trial holds exactly the chunks of which a copy arrived, whatever the order, the duplicates and the other traffic |
| `AebNetwork.UploadOutcome` | rf-actuated-boot-entropy/scripts/aeb_collector.py:742-766 | when RAW_END arrives the trial is filed from exactly those chunks, or finalizing raises |
| `AebNetwork.LateCopiesChangeNothing` | rf-actuated-boot-entropy/scripts/aeb_collector.py:731-758 | once a trial is gone no further copies of its upload, RAW_END included, bring it back or file a row for it |
| `AebLossyUpload.PlanIsUpload` | rf-actuated-boot-entropy/src/main.c:424-484 | the messages delivered in the network model are the messages that the upload sends |
| `AebLossyUpload.CompleteIff` | rf-actuated-boot-entropy/scripts/aeb_collector.py:383-404 | the trial is complete iff the buffer is nonempty, every raw chunk arrived and no chunk exceeds the receive buffer; then the stored bytes are the device buffer |
| `AebLossyUpload.CutPayload` | rf-actuated-boot-entropy/scripts/aeb_collector.py:687 | the receive cuts a jitter chunk between two deltas |
| `AebLossyUpload.CollectedFullIff` | rf-actuated-boot-entropy/scripts/aeb_collector.py:363-369 | the selection of arrived jitter chunks has the full number of deltas iff none was lost or cut, and is then the device's list |
| `AebLossyUpload.JitterSelection` | rf-actuated-boot-entropy/scripts/aeb_collector.py:363-369 | the decoded deltas are the chunks that arrived, as the receive cut them, in index order |
| `AebLossyUpload.LossyUpload` | rf-actuated-boot-entropy/scripts/aeb_collector.py:735-758 | end to end over drops, duplicates and reordering, RAW_BEGIN lost or not: the exact completeness condition, the raw bytes, the jitter selection, and that a complete row's response file is the string the device hashed iff no jitter chunk was lost or cut; the row counts the raw chunks that arrived and carries the noted result line |
| `AebLossyUpload.UploadSettles` | rf-actuated-boot-entropy/scripts/aeb_collector.py:731-758 | copies that arrive after the first RAW_END leave the filed row as it is and the only one |
| `AebLossyUpload.MatchIff` | rf-actuated-boot-entropy/scripts/aeb_collector.py:464-469 | given the device's reported digest, a complete row's response is marked as matching iff no jitter chunk was lost or cut |
| `AebLossyUpload.RawMatches` | rf-actuated-boot-entropy/scripts/aeb_collector.py:411-413 | given the device's reported digest of its buffer, the raw digest of a complete row is that digest and is marked as matching |
| `AebLossyUpload.JitterMatchIff` | rf-actuated-boot-entropy/scripts/aeb_collector.py:435-437 | given the device's reported digest of its deltas, the jitter is marked as matching iff no jitter chunk was lost or cut; without deltas both columns are empty |
| `AebLossyUpload.IntervalNoted` | rf-actuated-boot-entropy/scripts/aeb_collector.py:432-434 | the residual file of a row with deltas is taken against the reported interval |
| `AebLossyUpload.AllArrivedAgrees` | rf-actuated-boot-entropy/scripts/aeb_collector.py:463-475 | when every chunk arrived and the deltas pack, the trial is filed complete and the response file is the string hashed by the device |
| `AebLossyUpload.UploadRaisesIff` | rf-actuated-boot-entropy/scripts/aeb_collector.py:423-434 | finalizing raises iff a collected delta leaves the signed 32-bit range around the interval or the reported interval is not a number |
| `AebTrial.EntropyReadExact` | rf-actuated-boot-entropy/src/main.c:271-291 | reads of at most 64 bytes fill exactly the requested range with the next source bytes, and succeed iff the device answers every call |
| `AebTrial.TakeSlice` | rf-actuated-boot-entropy/src/main.c:575-586 | one packet buys the next slice of the source, cut at the request |
| `AebTrial.ShareIs` | rf-actuated-boot-entropy/src/main.c:575-586 | after n packets the bytes used are the smaller of the request and n slices |
| `AebTrial.DeltasAppend` | rf-actuated-boot-entropy/src/main.c:571-573 | one more packet adds its own wrapped difference to the deltas and changes no earlier one |
| `AebTrial.OnPacket` | rf-actuated-boot-entropy/src/main.c:566-588 | a matching packet is timed and buys a slice; any other changes nothing |
| `AebTrial.SampleLoop` | rf-actuated-boot-entropy/src/main.c:547-589 | for every pattern of packets: packets seen, deltas and bytes used are those of the accepted packets, a foreign packet using up an iteration |
| `AebTrial.Sample` | rf-actuated-boot-entropy/src/main.c:539-599 | both branches end with the first requested source bytes in the buffer |
| `AebTrial.RunTrial` | rf-actuated-boot-entropy/src/main.c:486-659 | a successful trial has read as many bytes as the START asks for if that is between 1 and the maximum, else the maximum; they are the next bytes of the source, each read once and in order; there is one delta per accepted packet, of at most as many packets as the START and the build allow; and it succeeds when the device and the hashes do |
| `AebTrial.Sha256Response` | rf-actuated-boot-entropy/src/main.c:189-211 | the hash input is the raw buffer followed by the little-endian deltas |
| `AebTrial.Sha256Jitter` | rf-actuated-boot-entropy/src/main.c:213-231 | the hash input is the little-endian deltas |
| `AebReport.CountOnes` | rf-actuated-boot-entropy/src/main.c:293-302 | the population counts add up to the ones of the buffer |
| `AebReport.CountTransitions` | rf-actuated-boot-entropy/src/main.c:304-321 | the carried previous bit counts the neighbouring bits that differ, across bytes |
| `AebReport.TransitionsAreCount` | rf-actuated-boot-entropy/src/main.c:304-321 | the transitions are the positions whose bit differs from the bit before it |
| `AebReport.MakeReport` | rf-actuated-boot-entropy/src/main.c:601-639 | the reported counts, bit statistics, minimum, floored mean, maximum and digests are those of this trial's buffers, in range of their fields; the seed is derived from the hash of the START header as salt and the hash of the response as key material |
| `AebReport.LineFits` | rf-actuated-boot-entropy/src/main.c:512-639 | the printed line always fits its 768-byte buffer |
| `AebLine.LineText` | rf-actuated-boot-entropy/src/main.c:628-639 | the line is the format string's, field by field: every name is followed by its own value, in this order |
| `AebReport.ReportReadsBack` | rf-actuated-boot-entropy/scripts/aeb_collector.py:196-211 | the collector reads the printed line back as its trial and its fields |
| `AebReport.ReportIsNoted` | rf-actuated-boot-entropy/scripts/aeb_collector.py:697-710 | a delivered report sets the interval and all three digests that finalizing will use |
| `AebJitter.Telescopes` | rf-actuated-boot-entropy/src/main.c:124-127 | with gaps under 2^32 cycles the wrapped differences add up to the true elapsed cycles |
| `AebJitter.JitterTelescopes` | rf-actuated-boot-entropy/src/main.c:536-573 | for n >= 1 packets the microsecond deltas add up to at most the true elapsed microseconds and to more than that less n |
| `AebJitter.JitterStats` | rf-actuated-boot-entropy/src/main.c:323-349 | minimum, maximum and floored mean of the deltas, zeros for none, with min <= mean <= max and no wrap of the sum |
| `AebStart.WaitForStart` | rf-actuated-boot-entropy/src/main.c:710-766 | at most 10 repeated HELLOs, exactly one in each turn that finds one due; success only with the first START of this trial, time-out only at the deadline |
| `AebStart.RepeatTurns` | rf-actuated-boot-entropy/src/main.c:714-735 | the repeats are in those turns, in order, that come at least a second after the wait began or after the last repeat |
| `AebStart.Handshake` | rf-actuated-boot-entropy/src/main.c:790-804 | a HELLO and its repeats are all that is sent before a START of this trial is returned |
| `AebStart.ClientTrial` | rf-actuated-boot-entropy/src/main.c:686-821 | hello, start, sampling, report and upload together: the HELLO says the trial, the burst count, the interval and the buffer size of the build, with a nonce of trial and uptime; what is reported and uploaded is the source bytes and deltas that this very trial measured; nothing is read from the source without a START, and a trial that ends early has sent HELLOs only |
| `AebEndToEnd.StartIsAccepted` | rf-actuated-boot-entropy/scripts/aeb_collector.py:563-567 | the collector's START ends the wait of the client that said HELLO, with the collector's numbers |
| `AebEndToEnd.BurstIsAccepted` | rf-actuated-boot-entropy/scripts/aeb_collector.py:609-616 | every BURST of the stimulus counts for the trial, whatever its payload |
| `AebEndToEnd.StimulusIsCounted` | rf-actuated-boot-entropy/src/main.c:547-589 | a stimulus that arrives in full is counted in full |
| `AebEndToEnd.HelloIsFresh` | rf-actuated-boot-entropy/scripts/aeb_collector.py:718-723 | a HELLO that does not end the program starts its trial afresh |
| `AebEndToEnd.SentIsOfTrial` | rf-actuated-boot-entropy/src/main.c:783-821 | what left the socket during a trial is its HELLOs, its report and its upload, nothing else |
| `AebEndToEnd.FiledRowIsTheTrial` | rf-actuated-boot-entropy/scripts/aeb_collector.py:735-758 | if copies of what one client trial put on its socket, late HELLOs included, in any order and amid other traffic, end in a filed row, the row's deltas are an in-order selection of that trial's, and a complete row is exactly the source bytes from the trial's start on, as many as the START asked for when that is in range, else the maximum |
| `AebMatch.ReportedMatchIff` | rf-actuated-boot-entropy/scripts/aeb_collector.py:396-469 | with the trial's own report delivered behind the last HELLO and nothing else reported later: a complete row has the digest of the device's buffer, marked as matching; the jitter and the response are marked as matching iff every jitter chunk arrived since and none was cut; residuals are against the START's interval |
| `TebCodec.StoreU64` | entropy-capsule-bootstrap/src/teb_protocol.c:20-25 | the byte loop stores the big-endian form |
| `TebCodec.StoreU32` | entropy-capsule-bootstrap/src/teb_protocol.c:12-18 | the shifts store the big-endian form |
| `TebCodec.LoadU64` | entropy-capsule-bootstrap/src/teb_protocol.c:37-46 | the shift loop reads the big-endian value without losing a bit |
| `TebCodec.LoadU32` | entropy-capsule-bootstrap/src/teb_protocol.c:32-35 | the shifts read the big-endian value |
| `TebCodec.LoadU16` | entropy-capsule-bootstrap/src/teb_protocol.c:27-30 | the shifts read the big-endian value |
| `TebCodec.StoreU16` | entropy-capsule-bootstrap/src/teb_protocol.c:6-10 | the shifts store the big-endian form |
| `TebCodec.ParseHelloBuffer` | entropy-capsule-bootstrap/server/teb_pq_beacon_server.c:104-122 | the C server's parser, over a buffer, with its error codes |
| `Bytes.BeRoundTrip` | entropy-capsule-bootstrap/src/teb_protocol.c:6-46 | loading a stored word gives it back |
| `Bytes.BeOfFromBe` | entropy-capsule-bootstrap/src/teb_protocol.c:6-46 | storing a loaded word gives the bytes back |
| `TebCodec.BuildHello` | entropy-capsule-bootstrap/src/teb_protocol.c:48-60 | the client writes the 88-byte hello, in place |
| `TebCodec.ParseCapsuleBuffer` | entropy-capsule-bootstrap/src/teb_protocol.c:62-106 | the client's parser, over a buffer, with its error codes |
| `TebCodec.BuildCapsule` | entropy-capsule-bootstrap/server/teb_pq_beacon_server.c:124-160 | the server fills the capsule with the signed fields and a signature over exactly those, or fails iff a library call or the signature length does |
| `TebCodec.ServerReadsHello` | entropy-capsule-bootstrap/server/teb_pq_beacon_server.c:104-122 | both servers read back what the client wrote |
| `TebCodec.AcceptedHelloIsEncoding` | entropy-capsule-bootstrap/server/teb_pq_beacon_server.c:104-122 | a hello that the C server accepts is the encoding of what it read |
| `TebCodec.AcceptedEdHelloIsEncodingIff` | entropy-capsule-bootstrap/server/teb_beacon_server.py:50-70 | a hello that the Python server accepts is the encoding of what it read iff its flags are zero |
| `TebCodec.NonzeroFlagsAccepted` | entropy-capsule-bootstrap/server/teb_beacon_server.py:50-70 | a concrete hello that the Python server takes although no client writes it |
| `TebCodec.ClientReadsCapsule` | entropy-capsule-bootstrap/server/teb_beacon_server.py:73-92 | for either profile the client reads back the fields the server packed |
| `TebCodec.AcceptedCapsuleIsEncoding` | entropy-capsule-bootstrap/src/teb_protocol.c:62-106 | an accepted capsule is the encoding of its fields followed by its signature, so equal fields and signature mean equal bytes |
| `TebLayout.HelloLayout` | entropy-capsule-bootstrap/src/teb_protocol.c:48-60 | the hello of either profile byte by byte |
| `TebLayout.SignedLayout` | entropy-capsule-bootstrap/server/teb_pq_beacon_server.c:134-147 | the signed part of a capsule of either profile byte by byte |
| `TebLayout.HelloParsesIff` | entropy-capsule-bootstrap/server/teb_pq_beacon_server.c:104-115 | the C server parses exactly the 88-byte buffers that start with the eight bytes of a hello of its profile; the Python server does not look at the last two of them |
| `TebLayout.ParsesIff` | entropy-capsule-bootstrap/src/teb_protocol.c:62-86 | the client parses exactly the buffers of a capsule's length that start with the eight bytes of a capsule of its profile |
| `TebClient.RetainedCounter.NextBootCounter` | entropy-capsule-bootstrap/src/main.c:57-73 | the counter restarts at 1 on a bad magic or check word, else counts one up, and is stored with a valid check |
| `TebClient.CounterIs` | entropy-capsule-bootstrap/src/main.c:57-73 | only a structure with the right magic and the check word of its value counts on, and what is stored is such a structure |
| `TebClient.RetainedCounter.WarmBoots` | entropy-capsule-bootstrap/src/main.c:57-73 | over warm boots each counter is one up from the last |
| `TebClient.CountersRepeatIff` | entropy-capsule-bootstrap/src/main.c:57-73 | two warm boots share a counter iff they are a multiple of 2^32 boots apart |
| `TebClient.AcceptCapsule` | entropy-capsule-bootstrap/src/main.c:201-321 | exactly one credit, of 128 bits, iff every earlier check and call succeeded, otherwise none; its seed is derived from both PUF secrets and the decapsulated secret, or the beacon, salted with the hashes of the body and of the hello, under the text of the profile; the code returned is that of the first step that fails, library calls included |
| `TebLayout.AcceptableIff` | entropy-capsule-bootstrap/src/main.c:222-262 | a capsule is acceptable iff its bytes start as one of this profile, carry this device, this boot and the hash of this hello at their offsets, and end in a valid signature of all that |
| `TebClient.AcceptedBindsHello` | entropy-capsule-bootstrap/src/main.c:232-246 | a capsule acceptable for two hellos was made for one hello |
| `TebClient.AcceptedInOneBoot` | entropy-capsule-bootstrap/src/main.c:232-236 | among at most 2^32 warm boots one capsule is acceptable in at most one |
| `TebNetwork.PqServer.Handle` | entropy-capsule-bootstrap/server/teb_pq_beacon_server.c:233-269 | one iteration of the serve loop: the counter advances on every accepted hello, and what is sent is the signed capsule of that request |
| `TebLayout.ServedLayout` | entropy-capsule-bootstrap/server/teb_pq_beacon_server.c:124-160 | what is sent for a client's hello: its device and counter, the clock, the next number, the ciphertext and the hash of the hello at their offsets |
| `TebNetwork.Exchange` | entropy-capsule-bootstrap/src/main.c:166-183 | one receive of exactly a capsule's length, accepted or rejected; anything else fails the boot |
| `TebNetwork.BootMain` | entropy-capsule-bootstrap/src/main.c:347-441 | one boot of the client: counter, hello, a single receive and the accept pipeline; without the entropy device nothing changes |
| `TebLayout.BootHello` | entropy-capsule-bootstrap/src/main.c:376-383 | the hello carries the device, the counter, the uptime and the two commitments, SRAM first |
| `TebLayout.ReadyIff` | entropy-capsule-bootstrap/src/main.c:423-441 | a waiting boot becomes ready iff the one datagram it receives starts with a capsule acceptable for its hello and every library call succeeds |
| `TebNetwork.StepKeepsInvariant` | entropy-capsule-bootstrap/src/main.c:423-441 | every step keeps the server's numbering, the single credit and the passed checks of every ready boot |
| `TebNetwork.RunKeepsInvariant` | entropy-capsule-bootstrap/src/main.c:423-441 | so does every run, whatever the network delivers and the libraries do |
| `TebNetwork.SingleCredit` | entropy-capsule-bootstrap/src/main.c:201-309 | in every run each boot has at most one credit, of 128 bits, for the seed derived from an acceptable capsule, and a ready boot exactly one, of the capsule it holds |
| `TebNetwork.RunKeepsAgreement` | entropy-capsule-bootstrap/server/teb_pq_beacon_server.c:222-274 | without forgery or hash collisions, every ready boot holds a capsule the server built for its hello, and boots with one capsule have one hello |
| `TebNetwork.CountedIff` | entropy-capsule-bootstrap/server/teb_pq_beacon_server.c:233-242 | the server counts a datagram iff it has at least 88 bytes and the first 88 are a hello |
| `TebNetwork.CountedIsEncodingIff` | entropy-capsule-bootstrap/server/teb_pq_beacon_server.c:233-242 | a counted datagram is the encoding of what was read iff it has exactly 88 bytes |
| `TebNetwork.LongHelloCounted` | entropy-capsule-bootstrap/server/teb_pq_beacon_server.c:233-242 | a concrete datagram of 89 bytes that is no hello and yet counted |
| `TebNetwork.CapsuleAgreement` | entropy-capsule-bootstrap/src/main.c:201-441 | in every run a boot that is ready accepted a capsule the server built for its very hello, both ends hold one secret, its one credit is of the seed derived from the server's own secret, the body it sent and the hello it answered, and below 2^32 accepted hellos the sequence names one server step |
| `TebNetwork.UndisturbedBootIsReady` | entropy-capsule-bootstrap/src/main.c:423-441 | from any state, a boot whose hello is served and whose capsule is delivered ends ready, with one credit and the server's secret |
| `TebNetwork.SequenceUnique` | entropy-capsule-bootstrap/server/teb_pq_beacon_server.c:240-245 | below 2^32 accepted hellos no two built capsules share a sequence number |
| `TebNetwork.SequenceRepeatsIff` | entropy-capsule-bootstrap/server/teb_pq_beacon_server.c:240-245 | in every run two capsules carry one sequence number iff the hellos they answer were counted a multiple of 2^32 apart |
| `TebBeacon.BeaconServer.Serve` | entropy-capsule-bootstrap/server/teb_beacon_server.py:108-125 | one turn of the Ed25519 serve loop: the number advances on every hello, and a capsule is sent unless building it raises |
| `TebBeacon.SequenceNeverRepeats` | entropy-capsule-bootstrap/server/teb_beacon_server.py:108-114 | over every run, however long, no two capsules carry the same sequence number |
| `TebBeacon.AnsweredIff` | entropy-capsule-bootstrap/server/teb_beacon_server.py:73-92 | a hello is answered iff the next number fits 32 bits and signing works |
| `TebBeacon.NothingMoreIsSent` | entropy-capsule-bootstrap/server/teb_beacon_server.py:73-92 | once 2^32 - 1 hellos have been counted nothing is ever sent again |
| `TebBeacon.AnsweredInAll` | entropy-capsule-bootstrap/server/teb_beacon_server.py:108-125 | of any number of hellos exactly the first 2^32 - 1 are answered |
| `TebBeacon.AnswerIsAcceptable` | entropy-capsule-bootstrap/server/teb_beacon_server.py:73-92 | the answer to a hello is acceptable to the client that said it, if the signature verifies |
| `TebLayout.AnswerLayout` | entropy-capsule-bootstrap/server/teb_beacon_server.py:73-92 | what is sent for a client's hello: its device and counter, the clock, the next number, the beacon and the hash of the hello at their offsets, and the signature of these bytes |
| `TebReplay.WarmCountersDistinct` | entropy-capsule-bootstrap/src/main.c:353 | within any run of fewer than 2^32 warm resets the boots have distinct counters |
| `TebReplay.ColdBootChains` | entropy-capsule-bootstrap/src/main.c:61-65 | whatever the memory held, a boot starts such a chain of counters |
| `TebNetwork.SameCapsuleSameHello` | entropy-capsule-bootstrap/src/main.c:238-246 | over every run without forgery or hash collisions, boots that accepted the same bytes had the same hello, whatever resets lie between |
| `TebReplay.WarmReplayRejected` | entropy-capsule-bootstrap/src/main.c:232-236 | over at most 2^32 warm boots a capsule is accepted in one boot only, whatever signatures, hashes and the KEM do |
| `TebReplay.ReplayNeverAccepted` | entropy-capsule-bootstrap/src/main.c:232-236 | the same from program start, after any earlier part of the run |
| `RngStats.Stats.Update` | esp32-rf-rng-state/scripts/analyze_reboot_slices.py:127-181 | after any chunk, empty ones included, the state is the one-pass summary of everything read |
| `RngStats.Stats.UpdateBulk` | esp32-rf-rng-state/scripts/analyze_reboot_slices.py:138-172 | the whole-array branch reaches the same state |
| `RngStats.PairsConcat` | esp32-rf-rng-state/scripts/analyze_reboot_slices.py:152-172 | the pairs of a concatenation are both parts' pairs and the boundary pair |
| `RngSums.PairSums` | esp32-rf-rng-state/scripts/analyze_reboot_slices.py:175-181 | the six accumulators are the number of adjacent pairs and the sums over their first bytes, their second bytes, the squares and the products |
| `RngStats.MetricsForFile` | esp32-rf-rng-state/scripts/analyze_reboot_slices.py:211-216 | for every split of a file into reads the state is the one-pass summary |
| `RngStats.MetricsFromCounts` | esp32-rf-rng-state/scripts/analyze_reboot_slices.py:82-124 | an empty input is the only error; counts, maximum, byte sum, ones and chi-square are the direct ones over the file, 256 * max >= n, and the correlation terms are bounded |
| `RngSums.ByteSumIs` | esp32-rf-rng-state/scripts/analyze_reboot_slices.py:101 | the byte sum is the sum of the values of all bytes |
| `BitCounts.OnesAreBits` | esp32-rf-rng-state/scripts/analyze_reboot_slices.py:103 | the number of ones is the number of bit positions that hold a one |
| `RngSums.CountIs` | esp32-rf-rng-state/scripts/analyze_reboot_slices.py:132-137 | the count of a byte value is the number of positions at which it stands |
| `RngCounts.TableSumIsDirect` | esp32-rf-rng-state/scripts/analyze_reboot_slices.py:101-104 | every weighted sum over the count table is the direct sum over the bytes |
| `RngCounts.MaxCountAtLeast` | esp32-rf-rng-state/scripts/analyze_reboot_slices.py:99 | the counts add up to the length, so the largest is at least a 256th of it |
| `RngStats.ChiSquare` | esp32-rf-rng-state/scripts/analyze_reboot_slices.py:97-98 | the loop over the counts gives the chi-square numerator |
| `RngChiSquare.ChiIs` | esp32-rf-rng-state/scripts/analyze_reboot_slices.py:97-98 | that numerator is the even-spread deviation of the counts and never negative |
| `RngChiSquare.ChiZeroIff` | esp32-rf-rng-state/scripts/analyze_reboot_slices.py:97-98 | it is zero iff all byte values are equally frequent |
| `RngStats.SerialTerms` | esp32-rf-rng-state/scripts/analyze_reboot_slices.py:106-112 | the guarded computation of the correlation terms, which are bounded and equal the formulas even with at most one pair |
| `RngSums.SerialSums` | esp32-rf-rng-state/scripts/analyze_reboot_slices.py:108-110 | the three terms as those sums over the pairs |
| `RngStats.VarianceNonNegative` | esp32-rf-rng-state/scripts/analyze_reboot_slices.py:108-110 | for every combination of the two streams n times the sum of squares is at least the squared sum |
| `RngStats.SerialCorrelationBounded` | esp32-rf-rng-state/scripts/analyze_reboot_slices.py:106-112 | both denominators are non-negative, the squared numerator is at most their product, and a zero product means a zero numerator: in exact arithmetic the correlation lies in [-1, 1] and the guards never act |
| `RngStats.IterWindows` | esp32-rf-rng-state/scripts/analyze_reboot_slices.py:221-234 | the windows partition the file, all full but perhaps the last, each with its own pair sums |
| `RngStats.WindowCount` | esp32-rf-rng-state/scripts/analyze_reboot_slices.py:221-234 | the number of windows is the size over the window size, rounded up |
| `RngSums.WindowIs` | esp32-rf-rng-state/scripts/analyze_reboot_slices.py:221-234 | window i is the bytes of the file from i times the window size on, cut to its end |
| `RngStats.WindowsAddUp` | esp32-rf-rng-state/scripts/analyze_reboot_slices.py:221-234 | window counts add up to the file's counts and the pairs to its length less the number of windows |
| `RngStats.CompareAligned` | esp32-rf-rng-state/scripts/analyze_reboot_slices.py:296-330 | chunked comparison of two files gives the one-pass totals over their common prefix |
| `RngStats.NoDifferenceIff` | esp32-rf-rng-state/scripts/analyze_reboot_slices.py:317-326 | no differing bit iff all bytes equal iff the same bytes |
| `RngSums.EqualBytesIs` | esp32-rf-rng-state/scripts/analyze_reboot_slices.py:317-326 | the number of equal bytes is the number of positions at which the files agree |
| `PufDistances.BitsOfSample` | entropy-capsule-bootstrap/scripts/analyze_puf_captures.py:20-25 | the nested loops give the most-significant-first bits |
| `Bits.HammingIsMismatch` | entropy-capsule-bootstrap/scripts/analyze_puf_captures.py:28-29 | population counts of exclusive ors count the positions at which the unpacked bits differ |
| `BitCounts.HammingIsCount` | entropy-capsule-bootstrap/scripts/analyze_puf_captures.py:28-29 | the distance of two samples is the number of their differing bits |
| `PufDistances.PairwiseDistances` | entropy-capsule-bootstrap/scripts/analyze_puf_captures.py:41-46 | the nested loops list every later sample's distance, row by row |
| `PufDistances.DistanceCount` | entropy-capsule-bootstrap/scripts/analyze_puf_captures.py:41-46 | n samples have n (n - 1) / 2 distances |
| `PufDistances.DistanceAt` | entropy-capsule-bootstrap/scripts/analyze_puf_captures.py:42-47 | where in the list the distance of any two samples stands |
| `PufDistances.DoubleCounting` | entropy-capsule-bootstrap/scripts/analyze_puf_captures.py:49-69 | the distances add up to ones times zeros, summed over all bit positions |
| `PufDistances.StableIffNoSpread` | entropy-capsule-bootstrap/scripts/analyze_puf_captures.py:59-64 | all bits are stable iff that sum is zero, and it is at most a quarter of n^2 per bit |
| `PufDistances.Summarize` | entropy-capsule-bootstrap/scripts/analyze_puf_captures.py:49-92 | the two error exits, and the integers behind every reported rate: the ones of all samples, the positions at which all samples agree, those at which at most 5 or at least 95 percent have a one, the number, sum, minimum and maximum of the distances; the largest is 0 iff every bit is stable |
| `PufDistances.AllOnesAreOnes` | entropy-capsule-bootstrap/scripts/analyze_puf_captures.py:61 | the per-bit counts, added up, are the ones of the samples laid end to end |
| `PufDistances.OnesAreSamples` | entropy-capsule-bootstrap/scripts/analyze_puf_captures.py:61 | a per-bit count is the number of samples that have a one there |
| `PufDistances.MeanRateBounded` | entropy-capsule-bootstrap/scripts/analyze_puf_captures.py:67-91 | the mean distance rate is at most n / (2 (n - 1)) |
| `DeterministicRng.OutputInjective` | entropy-capsule-bootstrap/scripts/generate_pq_keys.py:35-37 | the two multiply rounds and the last xorshift map different words to different words |
| `DeterministicRng.OutputOnto` | entropy-capsule-bootstrap/scripts/generate_pq_keys.py:35-37 | and onto all words |
| `DeterministicRng.UnfoldFold` | entropy-capsule-bootstrap/scripts/generate_pq_keys.py:35-37 | a xorshift is inverted by putting the top bits back |
| `DeterministicRng.StateAfterIs` | entropy-capsule-bootstrap/scripts/generate_pq_keys.py:33 | after k calls the state is the seed plus k increments, modulo 2^64 |
| `DeterministicRng.RepeatsIff` | entropy-capsule-bootstrap/scripts/generate_pq_keys.py:32-37 | two calls give the same output iff they are a multiple of 2^64 apart |
| `DeterministicRng.Rng.NextU64` | entropy-capsule-bootstrap/scripts/generate_pq_keys.py:32-37 | one call advances the state by the increment and returns it after the two xorshift-multiply steps and the last xorshift |
| `RngVectors.KnownAnswers` | entropy-capsule-bootstrap/scripts/generate_pq_keys.py:32-37 | the first two words from state 0 are 0xE220A8397B1DCDAF and 0x6E789E6AA1B965F4 |
| `DeterministicRng.Rng.Fill` | entropy-capsule-bootstrap/scripts/generate_pq_keys.py:39-47 | exactly the first length bytes of the little-endian output stream are written and the state advances by the words that takes, rounded up |
| `RngVectors.KnownBytes` | entropy-capsule-bootstrap/scripts/generate_pq_keys.py:39-47 | the first eight bytes written from state 0 |
| `DeterministicRng.StreamPrefix` | entropy-capsule-bootstrap/scripts/generate_pq_keys.py:39-47 | longer streams extend shorter ones |
| `MarkerScan.Find` | esp32-rf-rng-state/scripts/capture_binary.py:369-370 | the first marker in the buffer, or none |
| `MarkerScan.NoMarkerAcross` | esp32-rf-rng-state/scripts/capture_binary.py:383-399 | no marker straddles the end of a line, so dropping finished lines loses none |
| `MarkerScan.DropLines` | esp32-rf-rng-state/scripts/capture_binary.py:383-399 | every finished line goes and is listened to, and the scan still has missed no marker |
| `MarkerScan.ArmedIff` | esp32-rf-rng-state/scripts/capture_binary.py:380-381 | searching the buffer after each read finds the armed text exactly when it has arrived whole, though finished lines and overlong ones are thrown away |
| `CaptureMeta.LineEnds` | esp32-rf-rng-state/scripts/capture_binary.py:383-399 | a finished line adds what it says to what the lines before it said |
| `MarkerScan.CutBack` | esp32-rf-rng-state/scripts/capture_binary.py:426-427 | cutting an overlong buffer back to a marker's length loses no marker and no armed text, and happens to lines of over 4096 bytes only |
| `MarkerScan.Digest` | esp32-rf-rng-state/scripts/capture_binary.py:380-427 | one iteration without a marker: lines, trigger and cut together keep all of that |
| `CaptureMeta.MetaReadsBack` | esp32-rf-rng-state/scripts/capture_binary.py:393-395 | the printed metadata line announces the printed count, with or without a carriage return |
| `CaptureMeta.AnnouncedIff` | esp32-rf-rng-state/scripts/capture_binary.py:383-399 | a single announcement is known after n bytes iff its line has ended within them |
| `MarkerScan.ScanForMarker` | esp32-rf-rng-state/scripts/capture_binary.py:356-427 | however the stream is split, the scan stops in the read that completes the first marker of the whole stream, hands on what followed it less the buffered line breaks, and otherwise no marker has arrived; it knows what the lines finished before that read said, and has written one trigger if the armed text had arrived and nothing put it off |
| `MarkerScan.CollectBytes` | esp32-rf-rng-state/scripts/capture_binary.py:446-474 | the tail and the later reads, cut at the target, which may be negative; it gives up only after three empty reads in a row |
| `MarkerScan.Capture` | esp32-rf-rng-state/scripts/capture_binary.py:356-474 | a successful capture is exactly target consecutive bytes behind the first marker and the breaks skipped there, for the target asked for or announced |
| `MarkerScan.SkippedIs` | esp32-rf-rng-state/scripts/capture_binary.py:371-376 | the breaks skipped are the leading ones, or all that was buffered if that is less |
| `MarkerScan.SplitIndependentIff` | esp32-rf-rng-state/scripts/capture_binary.py:371-377 | the file equals the one that a single read would give iff the read completing the marker brought all the line breaks behind it |
| `MarkerScan.CapturesAgree` | esp32-rf-rng-state/scripts/capture_binary.py:371-377 | two captures of one stream agree when their reads skipped alike |
| `MarkerScan.SplitChangesTheFile` | esp32-rf-rng-state/scripts/capture_binary.py:371-377 | one stream and two splits of it that give different files |
| `CaptureTarget.TargetIff` | esp32-rf-rng-state/scripts/capture_binary.py:367-432 | without a size on the command line the announced count is collected iff its line had ended before the read that completed the marker; otherwise the target is 256 MiB |
| `CaptureTarget.TriggeredTarget` | esp32-rf-rng-state/src/trng_bench.c:146-165 | as the firmware announces its count before it is armed, a host that triggered it collects exactly that count |
| `CaptureTarget.FirmwareAnnounces` | esp32-rf-rng-state/src/trng_bench.c:146-152 | of the metadata, start delay and armed lines that the firmware prints only the first announces a byte count, and none holds a marker |
| `CaptureTarget.AnnouncementLost` | esp32-rf-rng-state/scripts/capture_binary.py:367-432 | for any count, the lines that the firmware prints up to the marker, and two splits of them with different targets |
| `CaptureMeta.AddressFound` | esp32-rf-rng-state/scripts/capture_binary.py:213-219 | a dotted address behind the word IPv4 is found in a line, whatever else it holds |
| `CaptureMeta.DottedFound` | esp32-rf-rng-state/scripts/capture_binary.py:213-219 | so four printed numbers of up to three digits with dots between them are found behind that word |
| `CaptureMeta.NoAddress` | esp32-rf-rng-state/src/wifi.c:190 | none is found in a line without a dot, such as the time-out |
| `CaptureMeta.NoDigitNoAddress` | esp32-rf-rng-state/scripts/capture_binary.py:213-219 | none is found in a line without a decimal digit |
| `CaptureMeta.TriggersIff` | esp32-rf-rng-state/scripts/capture_binary.py:402-425 | an iteration ends with the trigger sent iff it was sent before, or the armed text was seen, no wait is on, and a UDP burst has its address |
| `MarkerScan.StepsOverLineEndIff` | esp32-rf-rng-state/src/trng_bench.c:165-180 | exactly the marker's own line end is skipped iff the completing read brought it and the buffered payload does not begin with a line break |
| `HexText.HexRoundTrip` | sram-startup-state/src/main.c:58-64 | text written digit by digit is read back by the hexadecimal decoder |
| `HexText.HexAt` | sram-startup-state/src/main.c:58-64 | byte i is printed as two lower-case digits at 2 i, the high one first |
| `SramCapture.HexInto` | sram-startup-state/src/main.c:58-64 | one line's text in the character buffer, zero-terminated |
| `SramCapture.PrintCapture` | sram-startup-state/src/main.c:43-69 | the printed text is BEGIN with size and address, every 64 bytes as a data line, and END |
| `SramText.BeginReadsBack` | sram-startup-state/scripts/run_experiment.py:156-164 | a printed BEGIN line is read back as its size and address, with either line end |
| `SramText.DataReadsBack` | sram-startup-state/scripts/run_experiment.py:168-173 | a printed data line is read back as its offset and its text |
| `SramText.EndReadsBack` | sram-startup-state/scripts/run_experiment.py:178 | a printed END line is read as END |
| `SramText.ReadyReadsBack` | sram-startup-state/scripts/run_experiment.py:180 | the printed READY line is read as READY |
| `SramText.TextsAre` | sram-startup-state/src/main.c:47-65 | the printed BEGIN and data lines, as the format strings have them |
| `SramText.LineKinds` | sram-startup-state/scripts/run_experiment.py:156-180 | what a line is taken for, exactly by its text |
| `SramText.LineFieldsAre` | sram-startup-state/scripts/run_experiment.py:157-173 | what a line carries, and what a missing field stands for |
| `SramCapture.PrintedReadsBack` | sram-startup-state/scripts/run_experiment.py:156-178 | the text of a whole capture is read back as its lines |
| `SramCapture.TakeLine` | sram-startup-state/scripts/run_experiment.py:158-183 | one line of the log, with the buffer written in place |
| `SramCapture.ReadCapture` | sram-startup-state/scripts/run_experiment.py:140-185 | the loop over one uncleared buffer gives the specified verdict on every log |
| `SramCapture.AfterTells` | sram-startup-state/scripts/run_experiment.py:150-179 | at any point the reader's buffer, set and flags are what the log says was written since the last BEGIN |
| `SramCapture.LaterDataWins` | sram-startup-state/scripts/run_experiment.py:164-177 | a data line is stored where it says over whatever was stored there before, and nowhere else |
| `SramCapture.RaisesIff` | sram-startup-state/scripts/run_experiment.py:160-183 | which line raises which error, and which returns |
| `SramCapture.FullIff` | sram-startup-state/scripts/run_experiment.py:181 | a set of offsets has 4096 members iff it has them all |
| `SramCapture.ReadyVerdict` | sram-startup-state/scripts/run_experiment.py:180-183 | at READY the reader returns iff END was seen and every byte was written since the most recent BEGIN, and each returned byte is the last one written since then |
| `SramCapture.ReturnedIff` | sram-startup-state/scripts/run_experiment.py:150-185 | over a whole log the reader returns iff some READY finds such a capture |
| `SramCapture.ClosedVerdict` | sram-startup-state/scripts/run_experiment.py:158-183 | a capture after any noise and abandoned captures: returned iff its own data lines cover the region |
| `SramCapture.CaptureRoundTrip` | sram-startup-state/scripts/run_experiment.py:140-185 | printed in full, with noise anywhere and abandoned captures before, the region and address are read back exactly |
| `SramCapture.TextRoundTrip` | sram-startup-state/scripts/run_experiment.py:140-185 | the same for the bytes on the serial line, with either line end and noise in between |
| `SramCapture.LostLineRaises` | sram-startup-state/scripts/run_experiment.py:180-182 | a capture that lost any data line raises, even if an earlier one had delivered those bytes |
| `SramCommand.Console.FillAndVerify` | sram-startup-state/src/main.c:95-108 | the region is filled, and verified iff no faulty cell keeps another value |
| `SramCommand.Console.Execute` | sram-startup-state/src/main.c:136-148 | the finished line is executed, refused or ignored, and the region changes only when a pattern is accepted |
| `SramCommand.Console.Receive` | sram-startup-state/src/main.c:128-155 | one character: the buffer holds what is left of the line, and the region always holds the last accepted pattern |
| `SramCommand.AcceptedIff` | sram-startup-state/src/main.c:139-146 | a line arms a pattern iff its length is 7 modulo 32 and it ends in FILL and two hexadecimal digits |
| `SramCommand.ArmsIff` | sram-startup-state/scripts/run_experiment.py:191 | the host's command arms its pattern iff the characters already on the line are a multiple of 32; at 25 modulo 32 it goes unanswered, otherwise it is refused |
| `SramStats.StableBitCount` | sram-startup-state/scripts/run_experiment.py:257-265 | the byte and bit loops over value sets count the stable positions of the captures cut to the first one's length, and raise iff a capture is shorter |
| `SramStats.DifferingBits` | sram-startup-state/scripts/run_experiment.py:252-254 | the sum over the zipped bytes is the number of differing bits |
| `SramStats.StableIffIdentical` | sram-startup-state/scripts/run_experiment.py:257-265 | all bits are stable iff no two captures differ iff all captures are the same |

## Left out

- AebCollectorLoop.Collector.FinalizeTrial: of the CSV row the file names and the four host timing columns are left out; columns that copy the result line are kept as the noted fields. Its fallbacks for absent counts cannot act, because RAW_END supplies the counts first. That the per-trial files of an earlier session are overwritten is not captured.
- AebCollectorLoop.Collector.SendStimulus: the time slept, the send times and the stimulus CSV are not modelled; the random offsets and payloads are functions of capture id and burst.
- AebCollectorRun.CrashesIff: failures of the operating system are not among the causes, such as a full disk, an unreachable network, too little memory, or a terminal or locale that cannot encode the text of a result line.
- AebCollectorLoop.Collector.Turn: UTF-8 decoding, and what `int` makes of text that is not ASCII, are parameters; log output and the interrupt key are absent.
- AebTrial.RunTrial: the transcript and seed hashes appear as success flags; what the hashes are taken over is stated by `Sha256Response`, `Sha256Jitter` and `MakeReport`.
- AebTrial.CyclesToUs: the kernel's conversion is taken as the exact floor of cycles times 10^6 over the counter rate.
- AebStart.ClientTrial: the pauses between trials and the log output are absent.
- AebEndToEnd.FiledRowIsTheTrial: is about uploads that do not overrun the jitter payload buffer; what the code does after writing past it is undefined.
- TebNetwork.CapsuleAgreement: the theorems about server, device and network together are for the post-quantum profile; for the Ed25519 profile the codec, the accept pipeline and the serve loop (`TebBeacon`) are covered, but not that loop together with devices and a network.
- TebClient.AcceptCapsule: wiping of secrets, metrics and logging are not modelled.
- RngStats.MetricsFromCounts: logarithms, p-values and floating-point rounding are left out; sums and products that the program keeps as floats are exact integers here, with divisions cleared.
- PufDistances.Summarize: per-bit entropies and floating-point rounding are left out; divisions appear as cross-multiplied integers.
- DeterministicRng.Rng.constructor: the SHA-512 digest of the seed is a parameter.
- MarkerScan.ScanForMarker: of an IP address only whether one is known is kept; the UDP sender and the clocks are not modelled, a quarter of a second being a flag of each read.
- SramCapture.ReadCapture: the deadline is the end of the log, and every element of the log is one result of `readline`; how a port cuts a slow line at its read timeout is not modelled.
- SramCommand.Console.FillAndVerify: a faulty cell is one that reads back a fixed value of its own; cells that fail now and then are not modelled.
- Cryptographic libraries, the BLAKE2s pool driver, Wi-Fi, DHCP, UART drivers, sockets beyond send and receive outcomes, and real time.
- The entropy-renewal firmware, restart and collection scripts, plotting, report writing and argument parsing: they would only add easy members.
