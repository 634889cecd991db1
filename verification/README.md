# Verified model of solar-monitor

The program turns unreliable BLE byte streams of batteries and solar regulators into filtered
values and delivers them to MQTT and HTTP. This project models its hardest parts and proves
what they keep, over every input, run or interleaving.

- **Meritsun** (`AsciiHex`, `Padding`, `Framer`, `Meritsun`, `MeritsunFrames`, `MeritsunRuns`): the
  stream framer that re-syncs on marker bytes, the frame end, the additive checksum, Python's
  `int(s, 16)` with white space, signs, prefix and underscores, and the setters. The framer refines
  one cut of the whole stream, and the plugin undoes a frame printer.
- **CRC-16/MODBUS** (`Crc`, `Modbus`, `Hacien`, `SolarLink`): the shift loop, what it detects, the
  residue law, the two frame checkers, reassembly, and requests. `libscrc.modbus` is external; it
  is taken to be the same function, as section 2.5.1.2 and appendix section 6.2.2 of the MODBUS over
  Serial Line Specification V1.02 define it.
- **Validation filter** (`Filter`, `Battery`): `PowerDevice.validate` as a state machine over runs
  of readings, and the battery setters on top of it.
- **Topband scanner** (`Topband`): a three-state machine over a fixed array.
- **Connections** (`Ble`, `Connection`, `Writes`): the `maintain_device` tasks with their lock,
  failures, cancellation and shutdown; backoff; writes sharing a lock.
- **Commands** (`Topics`, `Bridge`): the lists the MQTT thread and the bridge share by reference.
- **Delivery** (`Delivery`, `Reconnect`): the cache of sent values, discovery configs and
  subscriptions, and `on_connect` topic by topic against registrations on the other thread.
- **Queue** (`Pipeline`): samples from the callbacks to the logger thread.

Objects that the program updates in place are classes whose methods are proved against
specification functions; the theorems are about those functions. Protocols of several tasks or
threads are state machines over their atomic steps, and `Run` is any sequence of steps.

Proved limits of the code:

- A replaced hex digit gets past the frame checksum exactly when the pair it stands in did not
  parse before; both readings then count as 0 (`AsciiHex.OneDigitCorruption`). Frames that let
  this happen exist (`MeritsunFrames.CorruptedDigitAccepted`).
- A buffer past 512 bytes delivers no packet; this differs from the whole-stream cut exactly when
  there is more than one marker or the only marker is the first byte (`Framer.OverflowIsExact`).
- The comment above `_frameEnd` speaks of the last padding byte before offset 110. The code takes
  the first one at index 109 or later when there is one; the model follows the code.
- A Hacien response in any notifications is handed over whole on the last of them exactly when that
  one is not empty, the first two bytes arrive together, no later notification starts with 1, 3 and
  none is a lone 1, for which `data[1]` raises (`Hacien.ResponseReassembled`). `Hacien.LastByteLost`
  gives a valid response whose last byte arrives alone and is lost, `Hacien.ResponseLost` one that
  is thrown away half-way.
- The two frame checkers agree exactly on the shapes that `Modbus.CheckersAgree` names; FF FF
  satisfies only Hacien's.
- If the first `subscribe` for a switch raises, `_listener_created` has no entry and every later
  `publish` of the switch raises KeyError behind the value it has just sent. The cache then stays
  behind the broker and the HTTP sink never sees the switch (`Delivery.OneSinkFails`,
  `Delivery.DarkForEver`). This is the only way one sink and the cache part (`Delivery.OneSinkExactly`).
- A negative maxdiff, which a config override can set, closes the escape of `validate`
  (`Filter.NegativeStepLatches`): three repeats settle the filter exactly when maxdiff is not
  negative, nothing was read before or the reading is the stored value (`Filter.ThreeRepeatsSettle`).
  The cell setter has no escape (`Battery.CellMovesOnlyNearby`).
- A set topic registered while `on_connect` still has topics in front of it makes the walk over the
  set raise, and the topics behind stay unsubscribed; otherwise everything is restored
  (`Reconnect.RestoredExactly`, `Reconnect.TopicLost`). The loop is not guarded, so the exception
  leaves `on_connect`; by the comment in `on_message` an unhandled exception in a callback ends
  the network thread.

## Model

| member | source | states |
|---|---|---|
| AsciiHex.PairParse | asciihex.py:24-30 | of two characters `int(s, 16)` reads a digit pair, or one digit with white space or a sign, and nothing else |
| AsciiHex.OneCharacter | asciihex.py:24-27 | one character reads as a value exactly when it is its digit in either case |
| AsciiHex.IgnoredCharacters | asciihex.py:24-30 | exactly eight characters are ignored on either side of a digit; in front of one a plus and a zero leave the value too |
| AsciiHex.AcceptedForms | asciihex.py:24-27 | signs, both prefixes and single underscores are accepted, with the value each form has |
| AsciiHex.RefusedForms | asciihex.py:24-30 | doubled, leading and trailing underscores and a bare prefix are refused |
| AsciiHex.FieldIsLittleEndian | asciihex.py:11-27 | a field of digit pairs reads as the little-endian number its bytes spell |
| AsciiHex.PairBytesOfHexPairs | asciihex.py:3-5 | printing bytes as hex pairs and pairing the characters again gives the bytes back |
| AsciiHex.LittleEndianRoundTrip | asciihex.py:14-15 | every number that fits a width is read back from its little-endian bytes |
| AsciiHex.ChecksumMatches | asciihex.py:33-48 | the loop decides exactly whether the pair sum equals the stated 16-bit sum |
| AsciiHex.PairSumBounds | asciihex.py:41-45 | each pair adds between -15 and 255 to the sum, whatever its characters |
| AsciiHex.OneDigitCorruption | asciihex.py:33-48 | one digit replaced by one of another value fails the check, except exactly when its pair did not parse before |
| AsciiHex.ChecksumReadsContentOnly | asciihex.py:33-48 | the verdict depends on nothing behind the checksum field |
| Padding.ContentEndStep | plugins/Meritsun/__init__.py:119-122 | the closed form of the content end advances by one byte exactly as the loop does |
| Padding.ContentEndChange | plugins/Meritsun/__init__.py:116-123 | changing a byte that is not padding into another such byte never moves the content end |
| Framer.CutIsPartition | plugins/Meritsun/__init__.py:89-114 | noise, then packets, then residue is the stream; every packet starts at its only marker |
| Framer.CutIsUnique | plugins/Meritsun/__init__.py:75-79 | the cut is the only way to split a stream at its markers |
| Framer.TwoBytes | plugins/Meritsun/__init__.py:89-110 | the two marker bytes in figures: which packet and which residue any two bytes give |
| Framer.CutConcat | plugins/Meritsun/__init__.py:81-114 | cutting in two instalments with the residue carried over is cutting once |
| Framer.SplitIndependence | plugins/Meritsun/__init__.py:81-114 | while the buffer fits, any notifications give the packets and the residue of the whole stream |
| Framer.LossyRunInOrder | plugins/Meritsun/__init__.py:81-114 | over any run, overflows included, the packets handed on are packets of the whole stream in their order |
| Framer.Resynchronises | plugins/Meritsun/__init__.py:75-80 | after any garbage everything from the next marker on is cut as if it stood alone |
| Framer.RetainedBounded | plugins/Meritsun/__init__.py:84-113 | after notifications of at most 512 bytes the buffer is empty or starts with its only marker, and is at most 512 bytes long |
| Framer.OverflowIsExact | plugins/Meritsun/__init__.py:84-87 | an overlong buffer delivers no packet, and agrees with the whole cut exactly when it has no marker or a single one that is not first |
| Meritsun.Util.EarliestMarker | plugins/Meritsun/__init__.py:91-104 | the search over both markers finds the first marker at or after a position |
| Meritsun.Util.NotificationUpdate | plugins/Meritsun/__init__.py:66-114 | the in-place loop ends, leaves the residue, handles exactly the packets of the cut in order, and tells whether one was a reading |
| Meritsun.Util.FrameEnd | plugins/Meritsun/__init__.py:116-123 | the loop computes the closed form of the frame end |
| Meritsun.FrameEndExactly | plugins/Meritsun/__init__.py:116-123 | of the first 122 bytes the frame ends behind the first padding byte at 109 or later, else behind the last one, else at 0 |
| Meritsun.Util.HandleDataPacket | plugins/Meritsun/__init__.py:125-140 | a packet is counted once, accepted exactly when its sum matches, and only then decoded |
| Meritsun.Util.HandleMessage | plugins/Meritsun/__init__.py:149-231 | a message makes exactly the setter calls of its fields, in order, or none when it is not a reading |
| Meritsun.RefusedExactly | plugins/Meritsun/__init__.py:163-195 | a message is refused exactly when it is shorter than 38, its voltage cannot be read or is below 1000, or no other scalar reads a value other than 0 |
| Meritsun.VoltageOnlyRefused | plugins/Meritsun/__init__.py:187-195 | the message with 13960 mV and zeros of any length is refused |
| Meritsun.CallsExactly | plugins/Meritsun/__init__.py:176-231 | a reading makes the calls of its offsets in order, none for a scalar that cannot be read, and those of the status block and the cells only when full |
| Meritsun.CellsExactly | plugins/Meritsun/__init__.py:214-229 | a cell is set exactly when it reads 1000 to 5000 mV and no slot up to it reads 0 |
| Meritsun.BloatedSetsNoCells | plugins/Meritsun/__init__.py:140-214 | a packet of more than 130 bytes sets neither the status block nor a cell |
| Meritsun.Util.HandleCells | plugins/Meritsun/__init__.py:214-229 | cell slots are set up to the first empty one, implausible ones skipped |
| Meritsun.Util.FrameHealth | plugins/Meritsun/__init__.py:142-146 | the counters are returned and start again from zero |
| Meritsun.SumNeverWraps | plugins/Meritsun/__init__.py:116-138 | for every packet and frame end the sum fits 16 bits |
| Meritsun.CorruptedDigitRejected | plugins/Meritsun/__init__.py:125-139 | one changed digit keeps the frame end and makes an accepted packet fail, but for a pair that did not parse |
| Meritsun.HandledAllConcat | plugins/Meritsun/__init__.py:110-113 | handling packets in two runs is handling them in one |
| Meritsun.CountersCountPackets | plugins/Meritsun/__init__.py:134-146 | accepted and rejected frames together count the packets cut |
| Meritsun.CountersExactly | plugins/Meritsun/__init__.py:134-139 | the first counter grows by the packets that end at 60 or later with a matching sum, the second by the others |
| MeritsunFrames.FrameIsOnePacket | plugins/Meritsun/__init__.py:75-80 | in a printed frame no payload byte is a marker or padding, and the content ends at 114 |
| MeritsunFrames.PrintedChecksum | plugins/Meritsun/__init__.py:131-134 | the printed sum matches |
| MeritsunFrames.CorruptedDigitAccepted | asciihex.py:26-48 | a spoilt spare byte of any printed frame goes unnoticed, and so does any later change of its other digit |
| MeritsunFrames.MessageRoundTrip | plugins/Meritsun/__init__.py:163-231 | the message of a printed frame decodes to exactly the values printed |
| MeritsunFrames.FrameRoundTrip | plugins/Meritsun/__init__.py:116-231 | a printed frame reads back as exactly the values it was printed from |
| MeritsunRuns.Deliver | plugins/Meritsun/__init__.py:66-114 | any run of notifications ends in the residue and the state that the specification of the run gives |
| MeritsunRuns.BoundariesLeaveNoTrace | plugins/Meritsun/__init__.py:75-114 | two ways of cutting one stream into notifications end in the same packets, buffer, counters and battery |
| MeritsunRuns.EndToEnd | plugins/Meritsun/__init__.py:66-231 | a printed frame behind any garbage, in any notifications, is one more accepted frame and exactly its own setter calls |
| MeritsunRuns.FirstFrameShown | solardevice.py:781-902 | a fresh battery shows exactly what the first plausible frame says |
| Filter.StoredValueBounded | solardevice.py:657-698 | over every run the stored value is the initial one or inside the hard bounds |
| Filter.NearIsStored | solardevice.py:657-698 | after any run a reading in bounds is stored at once, and the rejects forgotten, when the stored value is 0 or 2731 or at most maxdiff away |
| Filter.RepeatsAndOutsiders | solardevice.py:660-672 | a repeat of the stored value only forgets the rejects, a reading out of bounds leaves no trace |
| Filter.PendingInvariant | solardevice.py:673-697 | reject count and last rejected value are determined by the consistent jumps at the end of the run |
| Filter.JumpIsThirdConsistentReading | solardevice.py:673-698 | a reading in bounds and over maxdiff away is believed exactly when it is the third such, each within maxdiff of the one before, with only out-of-bounds readings between |
| Filter.ScatteredNeverMoves | solardevice.py:680-692 | jumps no two of which are within maxdiff of each other never move the stored value |
| Filter.ThreeRepeatsSettle | solardevice.py:660-698 | three repeats of one in-range reading among out-of-bounds ones end in one fixed state exactly when maxdiff is not negative, nothing was read before or the reading is the stored value |
| Filter.DifferentPastsConverge | solardevice.py:657-698 | two filters with different pasts that meet that condition are in the same state after the same three repeats |
| Filter.TwoRepeatsDoNotSettle | solardevice.py:226-226 | two repeats of a jump are not enough |
| Filter.NegativeStepLatches | solardevice.py:624-698 | with a negative maxdiff no run ever moves a stored value |
| Battery.BatteryDevice.constructor | solardevice.py:781-824 | the loop over the cells and the limits give the initial state |
| Battery.BatteryDevice.Validate | solardevice.py:657-698 | the branches compute the filter step and return False, or None exactly when the value was stored |
| Battery.BatteryDevice.SetCellMvoltage | solardevice.py:879-901 | the branches compute the cell step for every slot |
| Battery.CellExactly | solardevice.py:883-901 | a reading changes a cell exactly when it is in range, over 10 mV and at most maxdiff away, or the first and strictly in range |
| Battery.BatteryDevice.Assign | solardevice.py:826-924 | every setter changes exactly what its specification says |
| Battery.EachOnItsOwn | solardevice.py:781-924 | in any sequence of setter calls each quantity and each cell holds what its own readings alone make of it |
| Battery.LabelsExactly | solardevice.py:830-924 | the charge state, health, status, status block and message a setter call leaves, in figures |
| Battery.FirstTwoReadings | solardevice.py:781-815 | the limits of each quantity: which first reading a fresh battery stores, and which second one |
| Battery.CellBounded | solardevice.py:880-901 | a cell voltage is zero or one that was reported within the bounds |
| Battery.CellMovesOnlyNearby | solardevice.py:888-901 | a stored cell voltage stays for ever exactly unless some reading is in range, over 10 mV and at most maxdiff away |
| Battery.AssignedAllConcat | solardevice.py:826-924 | setter calls in two runs are the same as in one |
| Crc.Compute | plugins/Hacien/__init__.py:48-58 | the two nested loops compute the specified code |
| Crc.ShiftInvertible | plugins/Hacien/__init__.py:53-57 | the shift step can be undone |
| Crc.FromInjective | plugins/Hacien/__init__.py:50-58 | equal bytes never make different registers equal |
| Crc.FromConcat | plugins/Hacien/__init__.py:50-58 | the code can be continued over a concatenation |
| Crc.CrcOfBits | plugins/Hacien/__init__.py:48-58 | the byte-wise code is the bit-wise code of the bit stream |
| Crc.BurstDetected | plugins/Hacien/__init__.py:48-58 | every burst of at most 16 bits changes the code, at every length and bit position |
| Crc.TwoBytesDetected | plugins/Hacien/__init__.py:48-58 | any corruption of one byte or two adjacent bytes changes the code of any message |
| Crc.UndetectedErrors | plugins/Hacien/__init__.py:48-58 | two messages of one length share a code exactly when their difference leaves a zero register at zero |
| Crc.OddErrorsDetected | plugins/Hacien/__init__.py:48-58 | every corruption of an odd number of bits changes the code |
| Crc.OneByteFails | plugins/Hacien/__init__.py:45-58 | no single byte has residue zero |
| Crc.CodeEndsInOne | plugins/Hacien/__init__.py:48-58 | the bytes 1, 3, 2, 0, 243, 248, 1 have residue zero |
| Crc.ResidueZero | plugins/Hacien/__init__.py:45-58 | a frame has residue zero exactly when it ends in its own code, low byte first |
| Modbus.ReadsForwards | modbus.py:16-31 | a positive length reads high byte first |
| Modbus.ReadsBackwards | modbus.py:16-31 | a negative length reads the bytes ending at the offset, low byte first |
| Modbus.ForwardsByteByByte | modbus.py:16-31 | for every length each further byte is the least significant one, and a short frame reads as 0 |
| Modbus.BackwardsByteByByte | modbus.py:16-31 | for every negative length that fits each further byte is the one before |
| Modbus.BackwardsPastStart | modbus.py:27-31 | a negative length reaching past the start counts from the end of the frame, as a negative slice bound does |
| Modbus.ValidFrames | modbus.py:44-67 | a frame is valid exactly when it is a write response, or has its declared length and residue zero |
| Modbus.Sealed | modbus.py:62-64 | a body with its own code appended has residue zero |
| Modbus.CheckersAgree | modbus.py:44-67 | the two checkers agree on all frames of a shape exactly when there is at most one byte, or the lengths match and it is no write response |
| Modbus.ShortFrameDisagrees | modbus.py:50-52 | two bytes FF satisfy Hacien's check and not the shared one |
| Hacien.Util.Validate | plugins/Hacien/__init__.py:45-46 | the check decides residue zero of a non-empty message |
| Hacien.Util.NotificationUpdate | plugins/Hacien/__init__.py:60-73 | the buffer restarts or grows as specified, and the outcome is an IndexError, nothing yet, or the whole buffer |
| Hacien.BufferIsPrefix | plugins/Hacien/__init__.py:65-69 | behind a start, notifications that are no restart and no lone 1 are all kept |
| Hacien.NeverLoneOne | plugins/Hacien/__init__.py:65-69 | no run leaves a lone 1 in the buffer |
| Hacien.ResponseReassembled | plugins/Hacien/__init__.py:60-73 | after any past and in any notifications a response is handed over whole on the last exactly when that is not empty, the first two bytes come together, and none later is a restart or a lone 1 |
| Hacien.LastByteLost | plugins/Hacien/__init__.py:65-73 | a response valid for both checkers whose last byte, a lone 1, raises and is lost after any past |
| Hacien.ResponseLost | plugins/Hacien/__init__.py:65-73 | a response valid for both checkers whose first notification is thrown away when the second arrives |
| Hacien.PrematureOnlyBySelfCheck | plugins/Hacien/__init__.py:70-73 | a proper prefix is handed over exactly when its own residue is zero |
| SolarLink.Util.CreatePollRequest | plugins/SolarLink/__init__.py:223-264 | every request has residue zero and reads back its device, function, register and word |
| SolarLink.TargetsExactly | plugins/SolarLink/__init__.py:223-248 | function, register and word of the six commands; any other name raises |
| Topband.NextReachable | plugins/Topband/__init__.py:49-78 | SOI means an empty buffer, INFO 1 to 115 bytes, EOI 114 bytes and an end in 110 to 114: every step keeps it |
| Topband.ChunkReachable | plugins/Topband/__init__.py:44-79 | so does every notification |
| Topband.BufferIsLastInput | plugins/Topband/__init__.py:54-67 | the written prefix of the buffer is exactly the last bytes of the input |
| Topband.ChecksumReadsWritten | plugins/Topband/__init__.py:68-70 | over slots that may hold nothing the checksum of a closed buffer never raises and reads the written bytes |
| Topband.UnwrittenRaises | plugins/Topband/__init__.py:36-70 | with nothing in a slot of the checksum field it raises |
| Topband.Recovers | plugins/Topband/__init__.py:44-79 | from any reachable state 115 bytes without a start byte bring the scanner back to rest |
| Topband.FrameAfterGap | plugins/Topband/__init__.py:44-79 | behind such a gap the next frame is taken as from rest |
| Topband.ChunkConcat | plugins/Topband/__init__.py:44-79 | until a frame is accepted a chunk may be fed whole or in pieces; an accepted frame drops the rest |
| Topband.AcceptedIsFramed | plugins/Topband/__init__.py:68-74 | an accepted message is 113 bytes of the input behind a start byte, with a matching sum |
| Topband.FramedExactly | plugins/Topband/__init__.py:30-71 | a frame is 114 bytes that start with 94 and end in 0 and whose sum matches, its end being the first zero at 109 or later |
| Topband.FrameAcceptedExactly | plugins/Topband/__init__.py:49-78 | behind noise, 114 bytes with the right ends are accepted exactly when their sum matches |
| Topband.FrameRoundTrip | plugins/Topband/__init__.py:44-114 | a printed frame behind noise gives back exactly its values |
| Topband.Util.Feed | plugins/Topband/__init__.py:50-78 | one byte on the array computes the specified step |
| Topband.Util.NotificationUpdate | plugins/Topband/__init__.py:44-79 | a notification leaves the scanner and the battery as specified |
| Topband.Util.HandleMessage | plugins/Topband/__init__.py:86-114 | a message makes exactly the specified setter calls |
| Topband.CallsExactly | plugins/Topband/__init__.py:86-114 | a message of 38 bytes or more makes its 25 calls in order with the fields of their offsets, a shorter one none |
| Ble.EstablishmentIsExclusive | ble.py:102-115 | in every interleaving at most one task is establishing, and the lock is held by exactly that task |
| Ble.HeldOnlySubscribed | ble.py:102-117 | in every run a connection is held only after `connect` and every one of its `start_notify` awaits returned, counted from the actions of the run |
| Ble.OutcomeEarned | ble.py:99-133 | in every run an attempt is counted once, when it ends, as good exactly when it connected and subscribed to everything; a good one is retried at once, a bad one backs off |
| Ble.LeavesExactly | ble.py:102-125 | when a task leaves its attempt: offline is published then and only then, and a client still connected is disconnected |
| Ble.AvailabilityAlternates | solardevice.py:107-123 | no online follows an online, a device is online exactly while connected, and offline when finished |
| Ble.BackoffFollowsFailures | ble.py:98-133 | the n-th failure in a row sleeps the n-th backoff |
| Ble.DelaysGrow | ble.py:98-133 | the last n sleeps of a device that failed n times in a row are the first n delays in seconds, growing under one draw and bounded |
| Ble.BoundedOvertaking | ble.py:103-115 | while a device waits for the lock, others are given it at most as often as there were waiters in front of it |
| Ble.AtMostOneLateConnect | ble.py:99-105 | in every run each device begins at most one connection after stop, counted from the actions of the run |
| Ble.RegisteredOnce | ble.py:211-219 | a device has one task for ever, and a finished one stays finished |
| Ble.RegisteredExactly | ble.py:189-219 | in every run the devices with a task are exactly those registered, and stop is set exactly by those who stop |
| Ble.CancelledExactly | ble.py:189-194 | in every run a task is cancelled exactly when a cancellation has come that it has still to see |
| Ble.ShutdownBound | ble.py:96-133 | after stop no run has more awaits than a measure of the stopped state |
| Ble.SomeTaskEnabled | ble.py:102-133 | while a task has not ended, some task can be resumed |
| Ble.CancelledInOneRound | ble.py:189-199 | once every task has been resumed after the cancellation, each device is offline, the lock is free and at most a disconnect is left |
| Ble.ShutdownEnds | ble.py:96-133 | a stopped system that can go no further has ended every task, all offline, with the lock free |
| Connection.BackoffBounded | connection.py:17-27 | the delay lies between 0 and maximum plus jitter |
| Connection.BackoffDoubles | connection.py:25-27 | without jitter the first delay is the base and each further one doubles up to the maximum until the thirtieth failure; jitter is added, and no delay is negative |
| Connection.BackoffMonotone | connection.py:25-27 | with the same draw a later failure never waits less |
| Connection.CapIsInvisible | connection.py:14-27 | the capped form equals the uncapped doubling for every failure number and every draw exactly when base times 2 to the 29 reaches the maximum |
| Connection.WriteWithRetry | connection.py:30-57 | at most `attempts` writes, stopping at the first accepted one, True exactly when the last was accepted |
| Writes.OneWriteInFlight | solardevice.py:201-218 | in every interleaving of polls and commands at most one write is in flight, and the lock is free exactly when none is |
| Writes.CommandRetries | connection.py:42-57 | whatever interleaves, a command stops at its first accepted write and returns True exactly when it had one |
| Writes.EndsExactly | ble.py:66-78 | in every run a poll ends exactly at its first refused write, and a command that nobody cancelled ends only by returning |
| Writes.NoDeadlock | connection.py:42-57 | while a writer has not ended some writer can be resumed |
| Writes.CommandGetsCloser | connection.py:42-57 | each resumption of a command brings its end closer, from at most three awaits per attempt and two |
| Writes.CancelReleases | connection.py:44-46 | a cancelled writer ends, gives the lock back if it had it, and touches no other |
| Topics.SplitAtSlash | datalogger.py:286-289 | splitting at a slash distributes over joining with one |
| Topics.SubscribedTopicRoutesBack | datalogger.py:233-289 | a subscribed topic is routed back to its device and variable exactly when neither holds a slash |
| Topics.RouteExactly | datalogger.py:286-289 | a topic is routed exactly to the device and variable it names: the two levels before the last, behind at least one other |
| Topics.PrefixOnce | datalogger.py:67-81 | the stored prefix is the given one with at most one slash behind it, and ends in one |
| Bridge.NextInv | ble.py:252-270 | every step of either thread keeps the references, the commands and the wake-up accounted for |
| Bridge.ArrivedAsTold | datalogger.py:276-293 | in every run what arrived is, in order, the decodable messages whose topic names a device and a variable, each for that device, and nothing else |
| Bridge.DevicesExactly | ble.py:240-270 | in every run the known devices are exactly those added, each once, and stop is set exactly by those who stop |
| Bridge.RoundGoesOn | ble.py:256-270 | each round ends at stop or registers, waits, clears and sweeps the devices there are |
| Bridge.ExactlyOnce | datalogger.py:276-293 | in every interleaving what a device was sent, read off the messages alone, is what was submitted to it, then what is held, then what is pending, in order |
| Bridge.NoLostWakeup | ble.py:254-261 | while the bridge waits, a pending command that arrived after registration has the event set or about to be set |
| Bridge.QuietMeansDelivered | ble.py:240-270 | a bridge waiting with no wake-up set or coming has submitted every command it was sent after registration |
| Bridge.SweepDelivers | ble.py:262-270 | whatever arrives meanwhile, when a sweep is over each device known when it began has been given all it had been sent by then |
| Bridge.RegisteredBeforeWaiting | ble.py:256-260 | when the bridge waits, every device known at the head of the round has its trigger registered |
| Bridge.ClearedStaysClear | ble.py:254-261 | once cleared the event stays clear until the sender sets it |
| Bridge.SweepIsWaitFree | ble.py:262-270 | every step of a sweep brings its end closer and no other thread moves it away |
| Delivery.DataLogger.Log | datalogger.py:364-391 | a call of `log` changes cache, client and history as specified |
| Delivery.DataLogger.SendToServer | datalogger.py:396-419 | the sinks are asked in order, and an exception of the first keeps the second from being asked |
| Delivery.SendExactly | datalogger.py:83-116 | from the answers alone: when a send raises, what each sink was asked and took, and that it is full exactly when it did not raise and every configured sink answered well |
| Delivery.SwitchExactly | datalogger.py:89-108 | a variable is a switch exactly when power_switch occurs in it |
| Delivery.DataLoggerMqtt.Publish | datalogger.py:83-116 | config, listener, value and listener renewal happen as specified, KeyError included |
| Delivery.DataLoggerMqtt.CreateListener | datalogger.py:233-242 | the topic is registered whatever the subscribe does, its time recorded unless it raises |
| Delivery.DataLoggerMqtt.OnConnect | datalogger.py:249-260 | over a set that does not grow meanwhile, in any order, the subscriptions are the registered topics but the refused ones |
| Delivery.CacheIsLastDelivered | datalogger.py:378-391 | in every run the cached value is the last one that raised nothing and every configured sink answered well to, with its time |
| Delivery.HeldBackExactly | datalogger.py:380-387 | in every run a reading is held back exactly when the last delivered one carried it and is not older than the refresh interval; any other is sent once |
| Delivery.FailedIsRetried | datalogger.py:378-386 | when a sink did not answer well or the call raised, whatever happens elsewhere, the next reading that differs from the last delivered one is sent |
| Delivery.OneSinkStep | datalogger.py:100-116 | with one sink a call keeps cache and sink equal exactly when it does not raise behind an accepted new value |
| Delivery.OneSinkExactly | datalogger.py:364-419 | all through a run cache and sink agree exactly when no call breaks them apart |
| Delivery.OneSinkInSync | datalogger.py:364-419 | they agree in every run in which no subscribe of the topic raised |
| Delivery.OneSinkFails | datalogger.py:233-242 | a switch whose first subscribe raises is shown by the broker and not cached |
| Delivery.FailedSubscribeDarkens | datalogger.py:88-108 | after any run that has not logged a switch, such a first reading of it leaves it discovered without a listener |
| Delivery.DarkForEver | datalogger.py:107-116 | from then on every reading raises before the HTTP sink is asked |
| Delivery.ConfigsApart | datalogger.py:84-101 | in every run two configs of a topic are at least 3600 seconds apart |
| Delivery.RepublishedExactly | datalogger.py:84-101 | in every run a call queues a config exactly when it sends and the topic had none, or resends an old value after the interval |
| Delivery.ConfigRate | datalogger.py:84-101 | a run within a span of time queues at most one config per topic and one more per 3600 seconds of the span |
| Delivery.SwitchesRegistered | datalogger.py:88-107 | every value seen had its config, every published switch its set topic, and the broker serves no other topic |
| Delivery.SubscriptionsRestored | datalogger.py:249-260 | after any history of reconnects with an undisturbed on_connect the subscriptions equal the registered set but the refused, and stay so |
| Delivery.ServedOnlyIfAsked | datalogger.py:233-260 | in every run the broker serves a topic only if it was asked for it with success since it last forgot |
| Reconnect.NextInv | datalogger.py:233-260 | every step of either thread keeps the subscriptions equal to the topics asked for and not refused |
| Reconnect.ServedExactly | datalogger.py:233-260 | in every run the broker serves exactly the topics it took since the connection, read off the actions of both threads |
| Reconnect.WalkExactly | datalogger.py:253-260 | in every run a turn raises when the set has grown, ends when all were visited, and else visits one more; only a new connection starts over |
| Reconnect.LostExactly | datalogger.py:249-260 | the topics not served are those refused and those neither reached nor listened to |
| Reconnect.RestoredExactly | datalogger.py:233-260 | on_connect reaches every topic exactly when no new one is registered before it has, and then all but the refused are served |
| Reconnect.TopicLost | datalogger.py:233-260 | a run in which a registration makes the walk raise and a topic is lost that nothing refused |
| Delivery.SubscriptionHeals | datalogger.py:107-109 | publishing a switch subscribes it again exactly when its listener is over 300 seconds old |
| Pipeline.Conservation | solardevice.py:145-155 | samples taken are, in order, those handled, in hand and queued; the others are counted as dropped; the bound holds |
| Pipeline.RefusedExactly | supervisor.py:11-17 | in every run a sample is refused exactly when the queue has a bound and that many samples wait |
| Pipeline.LoggedInOrder | supervisor.py:20-37 | logged samples are a subsequence of those produced |
| Pipeline.LoggedGrows | supervisor.py:32-37 | in every run a sample is logged exactly when its `log` call returns |
| Pipeline.LoggerDrains | supervisor.py:27-37 | failing log calls stop nothing: whatever is produced meanwhile, each round handles the oldest sample once |
| Pipeline.Queue.TryPut | supervisor.py:11-17 | a sample is taken exactly when the queue is not full |
| Pipeline.Queue.Offer | solardevice.py:145-155 | a refused sample is counted by its device, nothing else changes |
| Pipeline.Queue.RunLogger | supervisor.py:20-42 | the loop, with any samples produced before and during its log calls, does the rounds of the specification |

## Left out

- Granularity: looking a list up and appending to it (datalogger.py:290) is one step in `Bridge`, as is every other access to a shared dictionary, list or event, and in `Reconnect` every turn of `on_connect` and every half of `create_listener`.
- Delivery.DataLoggerMqtt.OnConnect: takes a set that does not grow during the loop; the interleaving with registrations is `Reconnect`, where the connection holds until the loop has ended.
- Delivery.SubscriptionsRestored: takes `on_connect` as undisturbed by registrations, which `Reconnect.RestoredExactly` makes exact.
- Ble.ShutdownEnds: speaks of a loop that keeps running; `stop` stops it right after cancelling, and what holds then is `Ble.CancelledInOneRound`, given one resume of each task.
- Topics are pairs of device and variable in `Delivery`, so two pairs that print the same topic string are told apart; `device.strip()` is left to the caller.
- Calls into bleak, paho and requests are outcomes chosen by the environment. `submit_command` is assumed not to raise, and publishing availability not to raise; offline is taken to be published before a device is registered, as monitor_app.py does.
- A partly accepted value can leave two sinks showing different readings; the equality with a sink's view is claimed for one sink only.
- `Ble` takes a poll write as one await and leaves the link check of `_hold` and the connection interval out; `Writes` models the writes of one connection on their own, with the lock always present. The connection lock is served in order of arrival, the write lock in any order.
- Ble.BackoffFollowsFailures: counts failures and names the backoff; the seconds are in `Ble.DelaysGrow`.
- Numbers are reals or unbounded integers: rounding, infinities and NaN are not modelled.
- `apply_limit_overrides`: parses configuration; its only effect is other limits, which `Filter` takes as given, negative steps included.
- Entities other than the battery, and quantities no modelled plugin sets; they use the same filter with other limits. The `cell_voltage` setter is used by no plugin.
- The scratch fields `RevBuf`, `Revindex`, `end` and `prev_values` of the Meritsun plugin after a call, and the debug files.
- Hacien's `handleMessage` and SolarLink's response parsing: scaling of fixed offsets.
- RenogyBatt's capacity estimate and VEDirect's fixed packets: heuristics in floating point and magic sequences.
- Home Assistant JSON bodies, argument and ini parsing, logging, liveness supervision: no hard property.
