/** The older serial reader of reader.go: the same handshake and read loop
    without status strings or a stored connection, and a supervisor that
    re-initialises only after a respawn. */
module LegacyReader {
  import opened Prelude
  import opened Fifo
  import opened Inverter

  class Reader {
    const device: string
    const speed: nat
    const dataqueue: Queue<byte>
    var lastUpdate: int

    /** NewReader, with the clock reading `now` taken at creation. */
    constructor (device: string, speed: int64, now: int)
      ensures this.device == device && this.speed == DefaultSpeed(speed)
      ensures fresh(dataqueue) && dataqueue.container == []
      ensures lastUpdate == now
    {
      this.device := device;
      this.speed := DefaultSpeed(speed);
      dataqueue := new Queue<byte>();
      lastUpdate := now;
    }

    /** initLogger, once the port is open: writes Init and stops with false
        when its reply is rejected; otherwise writes Commit and returns its
        verdict. Reads and changes no field of the reader. */
    method InitLogger(initReply: Reply, commitReply: Reply) returns (ok: bool, written: seq<seq<byte>>)
      requires initReply.Received? ==> |initReply.data| <= ReplyBufferSize
      requires commitReply.Received? ==> |commitReply.data| <= ReplyBufferSize
      ensures ok == (Accepted(initReply) && Accepted(commitReply))
      ensures !Accepted(initReply) ==> written == [InitCommand]
      ensures Accepted(initReply) ==> written == [InitCommand, CommitCommand]
    {
      written := [InitCommand];
      ok := SendCommand(initReply);
      if !ok {
        return;
      }
      written := written + [CommitCommand];
      ok := SendCommand(commitReply);
    }

    /** start: reads until a read fails, a read comes more than five minutes
        after the previous one (the queue is cleared and true returned), or
        the reads run out. */
    method Start(events: seq<ReadEvent>) returns (stop: Stop, consumed: nat)
      requires FitsReadBuffer(events)
      modifies this, dataqueue
      ensures var r := ReadLoop(old(dataqueue.container), old(lastUpdate), events);
              stop == r.stop && consumed == r.consumed &&
              dataqueue.container == r.queue && lastUpdate == r.lastUpdate
    {
      ghost var run := ReadLoop(dataqueue.container, lastUpdate, events);
      var i := 0;
      while i < |events|
        invariant 0 <= i <= |events|
        invariant var r := ReadLoop(dataqueue.container, lastUpdate, events[i..]);
                  run == r.(consumed := r.consumed + i)
      {
        assert events[i..][1..] == events[i + 1..];
        match events[i]
        case ReadError =>
          return Failed, i + 1;
        case ReadOk(data, now) =>
          var span := now - lastUpdate;
          lastUpdate := now;
          if span > RespawnGap {
            dataqueue.Clear();
            return Respawned, i + 1;
          }
          PushBytes(dataqueue, data);
          i := i + 1;
      }
      return Blocked, i;
    }

    /** One iteration of startMonitored: after a respawn the handshake is
        re-run, and the queue is cleared when it fails. A respawn has already
        emptied the queue, so that Clear never changes what it holds. */
    method MonitorCycle(initReply: Reply, commitReply: Reply, events: seq<ReadEvent>)
      returns (stop: Stop, written: seq<seq<byte>>, cleared: bool)
      requires initReply.Received? ==> |initReply.data| <= ReplyBufferSize
      requires commitReply.Received? ==> |commitReply.data| <= ReplyBufferSize
      requires FitsReadBuffer(events)
      modifies this, dataqueue
      ensures var r := ReadLoop(old(dataqueue.container), old(lastUpdate), events);
              stop == r.stop && dataqueue.container == r.queue && lastUpdate == r.lastUpdate
      ensures written == if stop == Respawned then HandshakeWrites(initReply) else []
      ensures cleared == (stop == Respawned && !(Accepted(initReply) && Accepted(commitReply)))
    {
      ghost var q0, l0 := dataqueue.container, lastUpdate;
      var consumed;
      stop, consumed := Start(events);
      written, cleared := [], false;
      if stop == Respawned {
        ReadLoopStopsAtFirst(q0, l0, events);
        var ok;
        ok, written := InitLogger(initReply, commitReply);
        if !ok {
          dataqueue.Clear();
          cleared := true;
        }
      }
    }
  }
}
