/** The serial reader of reader/reader.go. The serial port is replaced by
    its observable behaviour: the replies the device gives to the two
    handshake commands, and the reads (bytes plus clock reading) the data
    connection delivers. */
module SerialReader {
  import opened Prelude
  import opened Fifo
  import opened Inverter

  /** The reader's `connection` field: nil, or a port that is open or was closed. */
  datatype Connection = Nil | Port(open: bool)

  class Reader {
    const device: string
    const speed: nat
    /** The byte queue the reader fills (the consumer's input). */
    const dataqueue: Queue<byte>
    var lastUpdate: int
    var status: string
    var initStatus: string
    var connection: Connection

    /** NewReader, with the clock reading `now` taken at creation. */
    constructor (device: string, speed: int64, now: int)
      ensures this.device == device && this.speed == DefaultSpeed(speed)
      ensures fresh(dataqueue) && dataqueue.container == []
      ensures lastUpdate == now && status == "Created" && initStatus == "None"
      ensures connection == Nil
    {
      this.device := device;
      this.speed := DefaultSpeed(speed);
      dataqueue := new Queue<byte>();
      lastUpdate := now;
      status := "Created";
      initStatus := "None";
      connection := Nil;
    }

    /** InitLogger, once the port is open: writes Init; if its reply is
        rejected the handshake stops there with "Failed on sending request",
        otherwise writes Commit and ends with "OK" whatever Commit's reply,
        returning Commit's verdict. `written` lists the commands written and
        `trail` the InitStatus values in the order they were set. */
    method InitLogger(initReply: Reply, commitReply: Reply)
      returns (ok: bool, written: seq<seq<byte>>, trail: seq<string>)
      requires initReply.Received? ==> |initReply.data| <= ReplyBufferSize
      requires commitReply.Received? ==> |commitReply.data| <= ReplyBufferSize
      modifies this`initStatus
      ensures ok == (Accepted(initReply) && Accepted(commitReply))
      ensures written == HandshakeWrites(initReply)
      ensures initStatus == InitStatusAfter(initReply)
      ensures trail == if Accepted(initReply)
                       then ["Starting", "Initializing", "Commiting request", "OK"]
                       else ["Starting", "Initializing", "Failed on sending request"]
    {
      initStatus := "Starting";
      trail := [initStatus];
      initStatus := "Initializing";
      trail := trail + [initStatus];

      written := [InitCommand];
      var accepted := SendCommand(initReply);
      if !accepted {
        initStatus := "Failed on sending request";
        trail := trail + [initStatus];
        return false, written, trail;
      }
      initStatus := "Commiting request";
      trail := trail + [initStatus];

      written := written + [CommitCommand];
      ok := SendCommand(commitReply);
      initStatus := "OK";
      trail := trail + [initStatus];
    }

    /** start: opens the data connection and reads until a read fails, a
        read comes more than five minutes after the previous one (respawn:
        the queue is cleared and the connection set to nil), or the reads
        run out (still blocked in a read). */
    method Start(events: seq<ReadEvent>) returns (stop: Stop, consumed: nat)
      requires FitsReadBuffer(events)
      modifies this, dataqueue
      ensures var r := ReadLoop(old(dataqueue.container), old(lastUpdate), events);
              stop == r.stop && consumed == r.consumed &&
              dataqueue.container == r.queue && lastUpdate == r.lastUpdate &&
              status == "Reading since " + ClockText(r.since)
      ensures connection == match stop
                            case Respawned => Nil
                            case Failed => Port(false)
                            case Blocked => Port(true)
      ensures initStatus == old(initStatus)
    {
      status := "Connecting";
      connection := Port(true);
      ghost var run := ReadLoop(dataqueue.container, lastUpdate, events);
      var i := 0;
      while true
        invariant 0 <= i <= |events|
        invariant connection == Port(true) && initStatus == old(initStatus)
        invariant var r := ReadLoop(dataqueue.container, lastUpdate, events[i..]);
                  run == r.(consumed := r.consumed + i)
        decreases |events| - i
      {
        status := "Reading since " + ClockText(lastUpdate);
        if i == |events| {
          return Blocked, i;
        }
        assert events[i..][1..] == events[i + 1..];
        match events[i]
        case ReadError =>
          // the deferred Close shuts the port; the field still refers to it
          connection := Port(false);
          return Failed, i + 1;
        case ReadOk(data, now) =>
          var span := now - lastUpdate;
          lastUpdate := now;
          if span > RespawnGap {
            dataqueue.Clear();
            connection := Nil;
            return Respawned, i + 1;
          }
          PushBytes(dataqueue, data);
          i := i + 1;
      }
    }

    /** One iteration of StartMonitored: when InitStatus is not "OK" the queue
        is cleared and the handshake re-run, then `start` runs; once it
        returns, the status is "Stopped reading.". */
    method MonitorCycle(initReply: Reply, commitReply: Reply, events: seq<ReadEvent>)
      returns (reinit: bool, written: seq<seq<byte>>, stop: Stop)
      requires initReply.Received? ==> |initReply.data| <= ReplyBufferSize
      requires commitReply.Received? ==> |commitReply.data| <= ReplyBufferSize
      requires FitsReadBuffer(events)
      modifies this, dataqueue
      ensures reinit == (old(initStatus) != "OK")
      ensures written == if reinit then HandshakeWrites(initReply) else []
      ensures initStatus == NextInitStatus(old(initStatus), initReply)
      ensures var r := ReadLoop(if reinit then [] else old(dataqueue.container), old(lastUpdate), events);
              stop == r.stop && dataqueue.container == r.queue && lastUpdate == r.lastUpdate &&
              status == (if stop == Blocked then "Reading since " + ClockText(r.since)
                         else "Stopped reading.")
      ensures connection == match stop
                            case Respawned => Nil
                            case Failed => Port(false)
                            case Blocked => Port(true)
    {
      reinit := initStatus != "OK";
      written := [];
      if reinit {
        dataqueue.Clear();
        var ok, trail;
        ok, written, trail := InitLogger(initReply, commitReply);
      }
      var consumed;
      stop, consumed := Start(events);
      if stop != Blocked {
        status := "Stopped reading.";
      }
    }
  }
}
