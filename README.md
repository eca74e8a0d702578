# Growatt RS232 reader — verified model of the reader, queue and diff publisher

This project models, in Dafny, the sequential core of a bridge between a
Growatt solar inverter's serial port and MQTT:

- the FIFO byte queue (`queue.go`) that connects the serial reader to its
  consumer, as a class over a sequence of boxed elements;
- the serial reader (`reader/reader.go`) and its older variant (`reader.go`):
  the baud-rate default, the two-stage Init/Commit handshake with its exact
  command bytes and `InitStatus` transitions, the test a device reply must
  pass, the read loop that pushes bytes and respawns after five silent
  minutes, and one cycle of the supervising loop;
- the diff publisher (`publisher.go`): the rotation of previous and current
  snapshots, the status strings, and the per-field rule deciding which
  fields are published.

The serial port is replaced by what it delivers: the reply the device
gives to each handshake command (`Inverter.Reply`) and the reads of the
data connection, each with the clock reading taken after it
(`Inverter.ReadEvent`, times in nanoseconds). The MQTT client is replaced
by the list of (topic, value) pairs that would be published. A datagram is
the list of its fields in declaration order, each with its name and a value
tagged float (an exact `real`), int (64-bit), string or timestamp; this
replaces the reflection walk of `publishMQTT`.

Where the code and the repository's own description differ, the model
follows the code: the queue is unbounded (no capacity, no dropping of the
oldest third), the publisher has no rate limit and no forced full publish on
a status change, and no record decoder or `0x57` terminator exists in the
files modelled.

Files: `prelude.dfy` (Option, Go's `byte`, `int64`, `uint` conversion,
64-bit wrap-around, `15:04:05` clock text), `queue.dfy` (module `Fifo`),
`inverter.dfy` (module `Inverter`: what both readers share), `reader.dfy`
(module `SerialReader`), `legacy_reader.dfy` (module `LegacyReader`),
`publisher.dfy` (module `DiffPublisher`).

## Model

| member | source | states |
|---|---|---|
| Fifo.Queue.constructor | queue.go:14-19 | NewQueue yields a queue holding nothing |
| Fifo.Queue.Push | queue.go:24-32 | the item is boxed and appended at the tail; the length grows by one and every earlier element keeps its position |
| Fifo.Queue.Clear | queue.go:37-41 | the queue is empty afterwards whatever it held, so clearing twice is the same as clearing once |
| Fifo.Queue.Pop | queue.go:47-58 | on an empty queue: nil, queue unchanged; otherwise the former head element (the box, as the code returns it) and the queue becomes the old contents without its head |
| Fifo.Boxed | queue.go:27-29 | a run of pushes appends exactly one box per item, holding that item, in call order |
| Fifo.Drain | queue.go:47-57 | the data of the queue's elements, one per element, in queue order (what `PopAll` returns) |
| Fifo.BoxedAppend | queue.go:24-32 | pushing two runs of items one after the other appends the two blocks in that order |
| Fifo.DrainBoxedRoundTrip | queue.go:24-57 | draining the boxes of a run of pushes returns the pushed items, and a queue's contents are determined by their drained data |
| Fifo.FirstInFirstOut | queue.go:24-57 | the contents left by pushing items onto a queue drain to what it held and then those items, in push order |
| Fifo.PopAll | queue.go:47-58 | calling Pop until it returns nil yields the data of every element in queue order and leaves the queue empty |
| Fifo.PushThenPopAll | queue.go:24-58 | FIFO with the queue's own methods: after Push of each item in turn, calling Pop until nil returns the former contents and then the items, in push order, and empties the queue |
| Prelude.ToUint | reader/reader.go:35 | Go's `uint(int)` conversion: non-negative values unchanged, negative ones shifted up by 2^64 |
| Prelude.WrapInt64 | publisher.go:149 | the 64-bit `int` subtraction result: congruent to the exact difference modulo 2^64 |
| Prelude.WrapDifferenceZero | publisher.go:146-149 | the wrapped difference of two int64 values is zero exactly when they are equal |
| Prelude.ClockText | reader/reader.go:209 | the `15:04:05` text: eight characters, two digits each for hour, minute and second separated by colons; read back, the hour is below 24, the minute and second below 60, and hour·3600 + minute·60 + second is the second of the (UTC) day of `t` |
| Prelude.TwoDigits | reader/reader.go:209 | a number below 100 as two decimal digits that read back as that number |
| Inverter.SpeedAsWritten | reader/reader.go:35-38 | the baud rate as the code computes it: 9600 when `uint(speed)` is below 110, otherwise `uint(speed)` |
| Inverter.NegativeSpeedNotDefaulted | reader/reader.go:35-38 | every negative speed escapes the default and becomes speed + 2^64 |
| Inverter.MinusOneSpeed | reader.go:29-32 | the concrete case: speed -1 gives baud 18446744073709551615 |
| Inverter.DefaultSpeed | reader.go:22-32 | the documented rule: a speed below 110 becomes 9600, any other is kept; the baud is always at least 110 |
| Inverter.SpeedRulesAgree | reader/reader.go:28-38 | on every non-negative speed the code and the documented rule give the same baud |
| Inverter.SendCommand | reader/reader.go:138-176 | the reply is rejected on a read error, on an empty reply, and when every byte equals the first; otherwise accepted |
| Inverter.Accepted | reader/reader.go:147-175 | a reply is rejected exactly when the read failed or every byte equals the first (all 0xFF, all 0xDE, ...), the empty reply included |
| Inverter.AcceptedIffTwoDistinct | reader.go:112-140 | a reply is accepted exactly when it was read and holds two different bytes; a 1-byte reply is never accepted |
| Inverter.HandshakeWrites | reader/reader.go:120-131 | Init is always written first; Commit is written exactly when Init's reply was accepted |
| Inverter.InitStatusAfter | reader/reader.go:124-133 | InitStatus ends as "OK" exactly when Init's reply was accepted, whatever Commit's reply |
| Inverter.ReadLoop | reader/reader.go:208-237 | the read loop consumes at most the reads given; it ends blocked only after consuming all of them, all successful, and otherwise after at least one |
| Inverter.ReadLoopDelivers | reader/reader.go:234-236 | unless the loop respawned, the queue grew by exactly the bytes of the consumed reads in arrival order, and a consumer pops the old contents then those bytes |
| Inverter.StaleAfterFiveMinutes | reader/reader.go:216-218 | `Stale`, the respawn test: a read is late exactly when more than five minutes (in ns) passed since lastUpdate; a late read is strictly after lastUpdate, and any later clock reading is late too |
| Inverter.ReadLoopStopsAtFirst | reader/reader.go:210-224 | every read consumed before the last succeeded within five minutes of its predecessor; a stop on failure is at a read error and leaves lastUpdate at the previous read's clock; a respawn is at a successful read more than five minutes after the previous one, empties the queue without pushing it and sets lastUpdate to its clock; the status shows the lastUpdate in force when the last pending read began |
| Inverter.ReadLoopStopsAt | reader/reader.go:210-224 | conversely, when every read before read k succeeded within five minutes of its predecessor and read k fails or is late, the loop consumes exactly k + 1 reads and ends failed or respawned accordingly |
| Inverter.PushBytes | reader/reader.go:234-236 | the `n` bytes read are pushed one by one, so the queue gains them as a block in order |
| Inverter.NextInitStatus | reader/reader.go:63-67 | after one supervision cycle InitStatus is "OK" or "Failed on sending request", and "OK" exactly when it was "OK" before or the Init reply was accepted |
| Inverter.Handshakes | reader/reader.go:63-67 | over n cycles there are at most n handshakes, and at least one when InitStatus starts other than "OK" |
| Inverter.NoHandshakeOnceOk | reader/reader.go:63-67 | once InitStatus is "OK", no later supervision cycle re-initialises |
| Inverter.HandshakesUntilAccepted | reader/reader.go:59-67 | from any other status, the supervisor re-initialises in every cycle up to and including the first whose Init reply is accepted, and never after |
| SerialReader.Reader.constructor | reader/reader.go:32-45 | the corrected baud default, a fresh empty queue, lastUpdate = now, Status "Created", InitStatus "None" |
| SerialReader.Reader.InitLogger | reader/reader.go:100-136 | writes the 14-byte Init; on rejection stops without Commit, InitStatus "Failed on sending request", false; otherwise writes the 8-byte Commit, InitStatus "OK", returns Commit's verdict; the InitStatus values are set in the order Starting, Initializing, then the outcome |
| SerialReader.Reader.Start | reader/reader.go:181-239 | the queue, lastUpdate and outcome are those of the read loop; a respawn sets the connection to nil, a read error leaves it closed; the status shows the lastUpdate of the last pending read |
| SerialReader.Reader.MonitorCycle | reader/reader.go:59-75 | the queue is cleared and the handshake re-run exactly when InitStatus is not "OK"; then start runs and, once it returns, Status is "Stopped reading."; the connection is nil after a respawn, a closed port after a read error, and the open port while blocked |
| LegacyReader.Reader.constructor | reader.go:26-38 | the corrected baud default, a fresh empty queue, lastUpdate = now |
| LegacyReader.Reader.InitLogger | reader.go:69-101 | writes Init; on rejection returns false without writing Commit; otherwise writes Commit and returns its verdict |
| LegacyReader.Reader.Start | reader.go:146-200 | the queue, lastUpdate and outcome are those of the read loop: bytes pushed in order, a respawn clears the queue and returns true, a read error returns false |
| LegacyReader.Reader.MonitorCycle | reader.go:51-62 | the handshake runs only after a respawn, and the queue is cleared only when start respawned and that handshake failed (a no-op, as the respawn already emptied it) |
| DiffPublisher.Changed | publisher.go:135-165 | a float field is published exactly when it moved by more than 0.00001 either way, a string exactly when it differs, a timestamp always; nothing else identical is ever published |
| DiffPublisher.ChangedIntIffDiffer | publisher.go:145-153 | an int field is published exactly when its old and new values differ, despite the tolerance test on a wrapping difference |
| DiffPublisher.ChangedSymmetric | publisher.go:135-165 | which fields are published does not depend on which snapshot is the old one; a value compared with itself is published exactly when it is a timestamp |
| DiffPublisher.Diff | publisher.go:130-166 | at most one publish per field |
| DiffPublisher.Changes | publisher.go:130-166 | the published fields are, in increasing field order, exactly those whose float moved by more than 0.00001, whose int or string differs, or that are timestamps |
| DiffPublisher.DiffFollowsFieldOrder | publisher.go:130-166 | the k-th publish goes to topic root + name of the k-th changed field, with its new value |
| DiffPublisher.DiffOfSameSnapshot | publisher.go:160-164 | publishing a snapshot against an identical one sends only its timestamp fields |
| DiffPublisher.StatusOf | publisher.go:89 | the value of the first string field named "Status", or "" when there is none |
| DiffPublisher.Publisher.constructor | publisher.go:38-57 | empty status; current and previous snapshot are both the fresh datagram; with a broker, MQTT is on and the topic root is "/solar/" + topic + "/" |
| DiffPublisher.Publisher.PublishMQTT | publisher.go:109-168 | nothing without a current snapshot; otherwise exactly the per-field difference of previous and current snapshots, in field order |
| DiffPublisher.Publisher.ListenCycle | publisher.go:74-104 | copies the interpreter, reader and init statuses; the previous snapshot becomes the old current one and the current one the supplier's datagram or a fresh one; the publisher status is "Data:" + its Status or "No datagram on " + the time; with MQTT the difference is published |

## Left out

- Serial port I/O: opening, writing, reading and closing the port, the `log.Fatalf` exits when opening or writing fails, the 250 ms and other sleeps, the 500 ms inter-character timeout and the 30-byte minimum read size (a read delivers at most the 30 bytes of `start`'s buffer, which `Start` requires of its reads). The model starts after a successful open; the port's behaviour is the `Reply` and `ReadEvent` inputs.
- The `startPoking` goroutine of reader/reader.go (a timer closing the connection concurrently) and all other concurrency: the queue's mutex and the unsynchronised length check in `Pop` are not modelled; everything runs single-threaded.
- The queue capacity that reader/reader.go passes to `NewQueue(100000)`: the queue of that package is not part of this model, so both readers use the unbounded queue of queue.go.
- The endless loops of `start`, `StartMonitored`/`startMonitored` and `listen`: `start` runs over a finite list of reads (ending "blocked" when they run out), and the supervisors and `listen` are modelled one cycle per call; `Inverter.Handshakes` strings supervision cycles together.
- The 10-minute sleep after a failed re-initialisation in reader.go, the unused `silent` flag of its `initLogger`, the `reading` flag and all logging.
- `start` reads the clock twice per read (for the gap and for `lastUpdate`); the model takes one clock reading per read.
- Time-of-day formatting uses UTC; Go's local time zone is not modelled.
- MQTT connection, publish acknowledgements, disconnect and the panic on a failed connect; the HTTP server and its `/status` and `/info` JSON endpoints.
- Formatting of published values (`%.1f`, `%d`, the date format): an emission carries the tagged value itself.
- Floating point: float fields are exact reals (no float32-to-float64 conversion, no NaN).
- The `Datagram` type and `NewDatagram` are not part of this model: the publisher receives the fresh datagram as a constructor argument, and `StatusOf` yields "" for a datagram without a string `Status` field (the Go type always has one).
- The supplier (interpreter.go is a stub with no decoding), main.go's flag parsing and diag/log.go's printing.
- The record decoder, the `0x57` terminator, sleep and back-off counters, day-production carry-over, the drop-oldest-third queue bound, rate limiting and forced publishing on status change: none of them appears in the files modelled.

## Findings

| source | as written | input that shows it | evidently intended | confidence | as-written member | corrected member |
|---|---|---|---|---|---|---|
| reader/reader.go:35-38 | the speed is converted with `uint(speed)` before the `< 110` test (the same in reader.go:29-32), so a negative speed wraps to a huge unsigned baud rate and is kept | `-baudrate=-1` gives baud 18446744073709551615 instead of 9600 | "Baud rate defaults to 9600 if too low [<110]": every speed below 110, negative ones included, becomes 9600 | medium, not executed | Inverter.SpeedAsWritten, Inverter.MinusOneSpeed | Inverter.DefaultSpeed (used by both reader constructors) |
