/** The logic the two serial readers (reader/reader.go and its older twin
    reader.go) share, with the serial port abstracted away: the baud-rate
    default, the two commands of the initialisation handshake, the test a
    device reply must pass, and the read loop of `start` as a function of
    the events the port delivers. */
module Inverter {
  import opened Prelude
  import opened Fifo

  /** Baud rates below this are replaced by the default. */
  const MinSpeed: int := 110
  const DefaultBaud: int := 9600

  /** The first stage of the handshake ("Init"). */
  const InitCommand: seq<byte> :=
    [0x3F, 0x23, 0x7E, 0x34, 0x41, 0x7E, 0x32, 0x59, 0x31, 0x35, 0x30, 0x30, 0x23, 0x3F]
  /** The second stage of the handshake ("Commit"). */
  const CommitCommand: seq<byte> := [0x3F, 0x23, 0x7E, 0x34, 0x42, 0x7E, 0x23, 0x3F]

  /** Size of the buffer a command reply is read into. */
  const ReplyBufferSize: int := 64
  /** Size of the buffer `start` reads into: no read delivers more bytes. */
  const ReadBufferSize: int := 30
  /** A gap longer than this between two reads makes the reader respawn: 5 minutes in ns. */
  const RespawnGap: int := 5 * 60 * 1_000_000_000

  // ---------------------------------------------------------------- baud rate

  /** NewReader's speed as written: `uint(speed)` is compared with 110, so a
      negative speed is reinterpreted as a huge unsigned number first. */
  function SpeedAsWritten(speed: int64): (baud: nat)
    ensures ToUint(speed) < MinSpeed ==> baud == DefaultBaud
    ensures ToUint(speed) >= MinSpeed ==> baud == ToUint(speed)
  {
    var u := ToUint(speed);
    if u < MinSpeed then DefaultBaud else u
  }

  /** The conversion lets every negative speed through unchanged (as a huge baud). */
  lemma NegativeSpeedNotDefaulted(speed: int64)
    requires speed < 0
    ensures SpeedAsWritten(speed) == speed as int + TwoTo64
    ensures SpeedAsWritten(speed) != DefaultBaud
  {
  }

  /** The concrete input: speed -1 gives baud 18446744073709551615, not 9600. */
  lemma MinusOneSpeed()
    ensures SpeedAsWritten(-1) == 18_446_744_073_709_551_615
  {
    NegativeSpeedNotDefaulted(-1);
  }

  /** The documented rule: any speed below 110 becomes 9600, others are kept. */
  function DefaultSpeed(speed: int64): (baud: nat)
    ensures baud >= MinSpeed
    ensures speed as int >= MinSpeed ==> baud == speed as int
    ensures speed as int < MinSpeed ==> baud == DefaultBaud
  {
    if speed as int < MinSpeed then DefaultBaud else speed as int
  }

  /** The code as written and the documented rule agree on every speed that is not negative. */
  lemma SpeedRulesAgree(speed: int64)
    requires speed >= 0
    ensures SpeedAsWritten(speed) == DefaultSpeed(speed)
  {
  }

  // ---------------------------------------------------------- command replies

  /** The outcome of `conn.Read` on the reply buffer: an error, or the bytes
      `buffer[0:size]` the device sent back. */
  datatype Reply = ReadFailed | Received(data: seq<byte>)

  /** sendCommand's verdict: a reply is accepted when it was read without
      error, is not empty, and some byte differs from the first one (all-0xFF
      means "not started", all-0xDE "shutting down"). */
  predicate Accepted(reply: Reply)
    ensures !Accepted(reply) <==>
              reply.ReadFailed? ||
              forall i :: 0 <= i < |reply.data| ==> reply.data[i] == reply.data[0]
  {
    reply.Received? && |reply.data| > 0 &&
    exists i :: 1 <= i < |reply.data| && reply.data[i] != reply.data[0]
  }

  /** Independent reading of the same rule: a reply is accepted exactly when it
      holds two different bytes; in particular no 1-byte reply is accepted. */
  lemma AcceptedIffTwoDistinct(reply: Reply)
    ensures Accepted(reply) <==>
              reply.Received? &&
              exists i, j :: 0 <= i < j < |reply.data| && reply.data[i] != reply.data[j]
    ensures reply.Received? && |reply.data| <= 1 ==> !Accepted(reply)
  {
  }

  /** sendCommand after the write: reads the reply and scans `buffer[1:size]`
      for a byte different from `buffer[0]`, stopping at the first one. */
  method SendCommand(reply: Reply) returns (accepted: bool)
    requires reply.Received? ==> |reply.data| <= ReplyBufferSize
    ensures accepted == Accepted(reply)
  {
    if reply.ReadFailed? {
      return false;
    }
    var size := |reply.data|;
    if size == 0 {
      return false;
    }
    var equal := true;
    var first := reply.data[0];
    var i := 1;
    while i < size
      invariant 1 <= i <= size
      invariant equal
      invariant forall k :: 1 <= k < i ==> reply.data[k] == first
    {
      if reply.data[i] != first {
        equal := false;
        break;
      }
      i := i + 1;
    }
    accepted := !equal;
  }

  /** The commands the handshake writes: Init, then Commit only when Init was accepted. */
  function HandshakeWrites(initReply: Reply): (written: seq<seq<byte>>)
    ensures |written| >= 1 && written[0] == InitCommand
    ensures CommitCommand in written <==> Accepted(initReply)
  {
    if Accepted(initReply) then [InitCommand, CommitCommand] else [InitCommand]
  }

  // ---------------------------------------------------------------- read loop

  /** One `conn.Read` of `start`: an error, or the bytes `buffer[0:n]` read
      together with the clock reading taken right after it (ns). */
  datatype ReadEvent = ReadError | ReadOk(data: seq<byte>, now: int)

  /** Every successful read fits the read buffer. */
  predicate FitsReadBuffer(events: seq<ReadEvent>) {
    forall k :: 0 <= k < |events| && events[k].ReadOk? ==> |events[k].data| <= ReadBufferSize
  }

  /** How `start` ended: a read error (returns false), a respawn after a long
      silence (returns true), or still blocked in a read when the reads run out. */
  datatype Stop = Failed | Respawned | Blocked

  /** The state `start` leaves: how it stopped, the queue, `lastUpdate`, the
      `lastUpdate` shown in the status while the last read was pending, and
      how many reads it consumed. */
  datatype ReadRun = ReadRun(stop: Stop, queue: seq<Element<byte>>, lastUpdate: int,
                             since: int, consumed: nat)

  /** More than five minutes have passed since the last read. */
  predicate Stale(lastUpdate: int, now: int)
  {
    now - lastUpdate > RespawnGap
  }

  /** The gap is Go's `5*time.Minute`: a read is late exactly when more than
      300 seconds passed since lastUpdate, so strictly after it, and any
      later clock reading would be late too. */
  lemma StaleAfterFiveMinutes(lastUpdate: int, now: int, later: int)
    ensures Stale(lastUpdate, now) <==> now - lastUpdate > 5 * 60 * NanosPerSecond
    ensures Stale(lastUpdate, now) ==> lastUpdate < now
    ensures Stale(lastUpdate, now) && now <= later ==> Stale(lastUpdate, later)
  {
  }

  /** `start`'s loop over the reads: each successful read sets lastUpdate to
      its clock reading; if the gap since the previous one exceeds five
      minutes the queue is cleared and the loop ends in a respawn without
      pushing, otherwise the read bytes are pushed in order. A read error
      ends the loop. */
  function ReadLoop(queue: seq<Element<byte>>, lastUpdate: int, events: seq<ReadEvent>): (r: ReadRun)
    ensures r.consumed <= |events|
    ensures r.stop == Blocked ==> r.consumed == |events| && forall k :: 0 <= k < |events| ==> events[k].ReadOk?
    ensures r.stop != Blocked ==> r.consumed >= 1
    decreases |events|
  {
    if events == [] then ReadRun(Blocked, queue, lastUpdate, lastUpdate, 0)
    else match events[0]
      case ReadError => ReadRun(Failed, queue, lastUpdate, lastUpdate, 1)
      case ReadOk(data, now) =>
        if Stale(lastUpdate, now) then ReadRun(Respawned, [], now, lastUpdate, 1)
        else
          var r := ReadLoop(queue + Boxed(data), now, events[1..]);
          r.(consumed := r.consumed + 1)
  }

  /** The bytes carried by a run of reads, in order. */
  function Bytes(events: seq<ReadEvent>): seq<byte> {
    if events == [] then []
    else (if events[0].ReadOk? then events[0].data else []) + Bytes(events[1..])
  }

  /** The bytes of a run of reads that starts with a successful one: its
      data, then the bytes of the reads after it. */
  lemma BytesOfPrefix(events: seq<ReadEvent>, n: nat)
    requires 1 <= n <= |events| && events[0].ReadOk?
    ensures Bytes(events[..n]) == events[0].data + Bytes(events[1..][..n - 1])
  {
    assert events[..n][1..] == events[1..][..n - 1];
  }

  /** A successful read that is not late is pushed and the loop goes on with
      the next read. */
  lemma ReadLoopTimely(queue: seq<Element<byte>>, lastUpdate: int, events: seq<ReadEvent>)
    requires events != [] && events[0].ReadOk? && !Stale(lastUpdate, events[0].now)
    ensures var r := ReadLoop(queue, lastUpdate, events);
            var rest := ReadLoop(queue + Boxed(events[0].data), events[0].now, events[1..]);
            r.stop == rest.stop && r.queue == rest.queue && r.consumed == rest.consumed + 1
  {
  }

  /** One successful, timely read: if the rest of the loop appends the bytes
      of the reads it consumes, so does the whole loop. */
  lemma ReadLoopQueueStep(queue: seq<Element<byte>>, lastUpdate: int, events: seq<ReadEvent>)
    requires events != [] && events[0].ReadOk? && !Stale(lastUpdate, events[0].now)
    requires var rest := ReadLoop(queue + Boxed(events[0].data), events[0].now, events[1..]);
             rest.stop != Respawned ==>
               rest.queue == queue + Boxed(events[0].data) + Boxed(Bytes(events[1..][..rest.consumed]))
    ensures var r := ReadLoop(queue, lastUpdate, events);
            r.stop != Respawned ==> r.queue == queue + Boxed(Bytes(events[..r.consumed]))
  {
    var data := events[0].data;
    var r := ReadLoop(queue, lastUpdate, events);
    var rest := ReadLoop(queue + Boxed(data), events[0].now, events[1..]);
    ReadLoopTimely(queue, lastUpdate, events);
    if rest.stop != Respawned {
      BytesOfPrefix(events, r.consumed);
      PushTwoRuns(queue, data, Bytes(events[1..][..rest.consumed]), Bytes(events[..r.consumed]), r.queue);
    }
  }

  /** Pushing two runs of bytes one after the other pushes their concatenation. */
  lemma PushTwoRuns(queue: seq<Element<byte>>, data: seq<byte>, tail: seq<byte>,
                    all: seq<byte>, after: seq<Element<byte>>)
    requires all == data + tail && after == queue + Boxed(data) + Boxed(tail)
    ensures after == queue + Boxed(all)
  {
    BoxedAppend(data, tail);
    Associative(queue, Boxed(data), Boxed(tail));
  }

  /** The queue part of ReadLoopDelivers, by induction over the reads. */
  lemma {:induction false} ReadLoopQueue(queue: seq<Element<byte>>, lastUpdate: int, events: seq<ReadEvent>)
    ensures var r := ReadLoop(queue, lastUpdate, events);
            r.stop != Respawned ==> r.queue == queue + Boxed(Bytes(events[..r.consumed]))
    decreases |events|
  {
    if events == [] {
    } else if events[0].ReadError? {
      assert events[..1][1..] == [];
    } else if !Stale(lastUpdate, events[0].now) {
      ReadLoopQueue(queue + Boxed(events[0].data), events[0].now, events[1..]);
      ReadLoopQueueStep(queue, lastUpdate, events);
    }
  }

  /** Unless the loop respawned, the queue grew by exactly the bytes of the
      consumed events in arrival order, so a consumer pops what was there and
      then those bytes. */
  lemma ReadLoopDelivers(queue: seq<Element<byte>>, lastUpdate: int, events: seq<ReadEvent>)
    ensures var r := ReadLoop(queue, lastUpdate, events);
            r.stop != Respawned ==>
              r.queue == queue + Boxed(Bytes(events[..r.consumed])) &&
              Drain(r.queue) == Drain(queue) + Bytes(events[..r.consumed])
  {
    var r := ReadLoop(queue, lastUpdate, events);
    ReadLoopQueue(queue, lastUpdate, events);
    FirstInFirstOut(queue, Bytes(events[..r.consumed]));
  }

  /** The lastUpdate in force when read `k` starts, when every read before it
      succeeded: the clock reading of read `k - 1`, or the initial one. */
  function PriorClock(lastUpdate: int, events: seq<ReadEvent>, k: nat): int
    requires k <= |events|
  {
    if k == 0 then lastUpdate
    else match events[k - 1]
      case ReadOk(_, now) => now
      case ReadError => lastUpdate
  }

  /** The loop stops at the first read that fails or comes more than five
      minutes after the previous one: every read before it succeeded within
      five minutes of its predecessor. A respawn leaves the queue empty
      without pushing that read; lastUpdate is the clock reading of the last
      successful read, and the status shows the one in force when the
      stopping read began. */
  lemma {:induction false} ReadLoopStopsAtFirst(queue: seq<Element<byte>>, lastUpdate: int, events: seq<ReadEvent>)
    ensures var r := ReadLoop(queue, lastUpdate, events);
            var last := if r.stop == Blocked then r.consumed else r.consumed - 1;
            0 <= last <= |events| &&
            (forall k :: 0 <= k < last ==>
               events[k].ReadOk? && !Stale(PriorClock(lastUpdate, events, k), events[k].now)) &&
            r.since == PriorClock(lastUpdate, events, last) &&
            (r.stop == Blocked ==> r.lastUpdate == r.since) &&
            (r.stop == Failed ==> events[last].ReadError? && r.lastUpdate == r.since) &&
            (r.stop == Respawned ==>
               r.queue == [] && events[last].ReadOk? &&
               r.lastUpdate == events[last].now && Stale(r.since, r.lastUpdate)) &&
            (r.consumed == 0 ==> r.queue == queue)
    decreases |events|
  {
    if events != [] && events[0].ReadOk? && !Stale(lastUpdate, events[0].now) {
      ReadLoopStopsAtFirst(queue + Boxed(events[0].data), events[0].now, events[1..]);
      forall k | 0 <= k < |events| && (k == 0 || events[k].ReadOk?)
        ensures PriorClock(lastUpdate, events, k + 1) == PriorClock(events[0].now, events[1..], k)
      {
      }
    }
  }

  /** Conversely, when every read before read `k` succeeded within five
      minutes of its predecessor, read `k` ends the loop if it fails (read
      error) or comes more than five minutes late (respawn). */
  lemma {:induction false} ReadLoopStopsAt(queue: seq<Element<byte>>, lastUpdate: int, events: seq<ReadEvent>, k: nat)
    requires k < |events|
    requires forall j :: 0 <= j < k ==>
               events[j].ReadOk? && !Stale(PriorClock(lastUpdate, events, j), events[j].now)
    requires events[k].ReadError? || Stale(PriorClock(lastUpdate, events, k), events[k].now)
    ensures var r := ReadLoop(queue, lastUpdate, events);
            r.consumed == k + 1 && r.stop == (if events[k].ReadError? then Failed else Respawned)
    decreases |events|
  {
    if k > 0 {
      forall j | 0 <= j < |events| && (j == 0 || events[j].ReadOk?)
        ensures PriorClock(lastUpdate, events, j + 1) == PriorClock(events[0].now, events[1..], j)
      {
      }
      ReadLoopStopsAt(queue + Boxed(events[0].data), events[0].now, events[1..], k - 1);
    }
  }

  /** The inner loop of `start`: pushes `buffer[0:n]` one byte at a time. */
  method PushBytes(q: Queue<byte>, data: seq<byte>)
    modifies q
    ensures q.container == old(q.container) + Boxed(data)
  {
    var i := 0;
    while i < |data|
      invariant 0 <= i <= |data|
      invariant q.container == old(q.container) + Boxed(data[..i])
    {
      q.Push(data[i]);
      BoxedAppend(data[..i], [data[i]]);
      assert data[..i + 1] == data[..i] + [data[i]];
      i := i + 1;
    }
    assert data[..i] == data;
  }

  // ------------------------------------------------------ supervision cycles

  /** reader/reader.go's InitStatus once InitLogger returns. */
  function InitStatusAfter(initReply: Reply): (status: string)
    ensures status == "OK" <==> Accepted(initReply)
  {
    if Accepted(initReply) then "OK" else "Failed on sending request"
  }

  /** StartMonitored's rule for one cycle: re-run the handshake exactly when
      the InitStatus is not "OK". */
  function NextInitStatus(initStatus: string, initReply: Reply): (status: string)
    ensures status == "OK" || status == "Failed on sending request"
    ensures status == "OK" <==> initStatus == "OK" || Accepted(initReply)
  {
    if initStatus != "OK" then InitStatusAfter(initReply) else initStatus
  }

  /** How many handshakes StartMonitored performs over cycles whose Init
      replies are `initReplies`, starting from `initStatus`. */
  function Handshakes(initStatus: string, initReplies: seq<Reply>): (n: nat)
    ensures n <= |initReplies|
    ensures initStatus != "OK" && initReplies != [] ==> n >= 1
    decreases |initReplies|
  {
    if initReplies == [] then 0
    else (if initStatus != "OK" then 1 else 0) +
         Handshakes(NextInitStatus(initStatus, initReplies[0]), initReplies[1..])
  }

  /** Once the InitStatus is "OK", StartMonitored never re-initialises again. */
  lemma {:induction false} NoHandshakeOnceOk(initReplies: seq<Reply>)
    ensures Handshakes("OK", initReplies) == 0
    decreases |initReplies|
  {
    if initReplies != [] {
      NoHandshakeOnceOk(initReplies[1..]);
    }
  }

  /** Retrying stops at the first accepted Init: from a status other than "OK",
      StartMonitored re-initialises in every cycle up to and including the
      first whose Init reply is accepted, and never after. */
  lemma {:induction false} HandshakesUntilAccepted(initStatus: string, initReplies: seq<Reply>, first: nat)
    requires initStatus != "OK"
    requires first <= |initReplies|
    requires forall k :: 0 <= k < first ==> !Accepted(initReplies[k])
    requires first < |initReplies| ==> Accepted(initReplies[first])
    ensures Handshakes(initStatus, initReplies) == if first < |initReplies| then first + 1 else first
    decreases |initReplies|
  {
    if initReplies == [] {
    } else if first == 0 {
      NoHandshakeOnceOk(initReplies[1..]);
    } else {
      HandshakesUntilAccepted(InitStatusAfter(initReplies[0]), initReplies[1..], first - 1);
    }
  }
}
