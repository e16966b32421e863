/**
 * One inspection rail and its TCP link. The socket is replaced by two logs:
 * `sent` holds every byte written, and `Feed` hands the receive path the
 * bytes of one read. The listeners are replaced by the `events` log. The
 * receive path keeps the accumulated bytes in `dataBuffer` and the
 * position assembler in `currentHigh` and `expectingLow`.
 */
module Robot {
  import opened Wrappers
  import opened PelcoFrame
  import opened FrameParser
  import opened Seqs

  /** Index of the first sync byte of buf, or -1 when there is none. */
  method FindFrameStart(buf: seq<byte>) returns (start: int)
    ensures -1 <= start < |buf|
    ensures start == -1 <==> SYNC !in buf
    ensures start >= 0 ==> buf[start] == SYNC && forall j :: 0 <= j < start ==> buf[j] != SYNC
    ensures start >= 0 ==> FirstSync(buf) == Some(start)
  {
    start := -1;
    var i := 0;
    while i < |buf|
      invariant 0 <= i <= |buf|
      invariant forall j :: 0 <= j < i ==> buf[j] != SYNC
    {
      if buf[i] == SYNC {
        start := i;
        break;
      }
      i := i + 1;
    }
    FirstSyncIsFirst(buf);
  }

  /** Some event in the log is a position report. */
  predicate HasPosition(evs: seq<Event>) {
    exists e :: e in evs && e.PositionReceived?
  }

  class InspectRobot {
    var dataBuffer: seq<byte>
    var currentHigh: nat
    var expectingLow: bool
    /** Deliveries to the preset-reached and position listeners, in order. */
    var events: seq<Event>
    /** Every byte written to the socket, in order. */
    var sent: seq<byte>
    var connected: bool
    /** Time (ms) of the last position report, set by the heartbeat listeners. */
    var lastHeartbeat: int

    /** The pending high half is a 16-bit value. */
    predicate Valid()
      reads this`currentHigh, this`expectingLow
    {
      AssemblerValid(Asm())
    }

    /** The position assembler as a value. */
    function Asm(): Assembler
      reads this`currentHigh, this`expectingLow
    {
      Assembler(currentHigh, expectingLow)
    }

    constructor (now: int)
      ensures Valid()
      ensures dataBuffer == [] && Asm() == Assembler(0, false)
      ensures events == [] && sent == []
      ensures !connected && lastHeartbeat == now
    {
      dataBuffer := [];
      currentHigh := 0;
      expectingLow := false;
      events := [];
      sent := [];
      connected := false;
      lastHeartbeat := now;
    }

    /** Opening the socket either succeeds and marks the link connected, or fails and changes nothing. */
    method Connect(socketOpened: bool) returns (ok: bool)
      modifies this`connected
      ensures ok == socketOpened
      ensures connected == (socketOpened || old(connected))
    {
      ok := socketOpened;
      if socketOpened {
        connected := true;
      }
    }

    method Disconnect()
      modifies this`connected
      ensures !connected
    {
      connected := false;
    }

    method GetConnectionStatus() returns (status: bool)
      ensures status == connected
    {
      status := connected;
    }

    /** Writes one frame; a failed write (the IOException) writes nothing. */
    method SendCommand(f: Fields, writeOk: bool) returns (ok: bool)
      modifies this`sent
      ensures ok == writeOk
      ensures sent == old(sent) + (if writeOk then Frame(f) else [])
    {
      var command := BuildPelcoDCommand(f);
      ok := writeOk;
      if writeOk {
        sent := sent + command[..];
      }
    }

    /** move, setLight, setHighSpeed, setPreset, gotoPreset, auxControl and the two position queries. */
    method Send(c: Command, writeOk: bool) returns (ok: bool)
      modifies this`sent
      ensures ok == writeOk
      ensures sent == old(sent) + (if writeOk then Encode(c) else [])
    {
      ok := SendCommand(CommandFields(c), writeOk);
    }

    /** Removes up to length bytes from the front of the buffer, one at a time. */
    method RemoveFrameFromBuffer(length: nat)
      modifies this`dataBuffer
      ensures dataBuffer == old(dataBuffer)[if length < |old(dataBuffer)| then length else |old(dataBuffer)|..]
    {
      var i := 0;
      while i < length && |dataBuffer| > 0
        invariant 0 <= i <= length
        invariant i <= |old(dataBuffer)|
        invariant dataBuffer == old(dataBuffer)[i..]
      {
        dataBuffer := dataBuffer[1..];
        i := i + 1;
      }
    }

    method HandlePresetReached(frame: seq<byte>)
      requires |frame| == FRAME_LENGTH && Classify(frame).Preset?
      modifies this`events
      ensures events == old(events) + HandleFrame(old(Asm()), frame).events
    {
      var presetNum := frame[4] as int * 256 + frame[5] as int;
      var direction := if frame[1] == 0x1A then Horizontal else Vertical;
      events := events + [PresetReached(presetNum, direction)];
    }

    method HandleHighPosition(frame: seq<byte>)
      requires |frame| == FRAME_LENGTH && Classify(frame).PositionHigh? && ChecksumValid(frame)
      modifies this`currentHigh, this`expectingLow
      ensures Asm() == HandleFrame(old(Asm()), frame).asm
      ensures HandleFrame(old(Asm()), frame).events == []
    {
      var high := frame[4] as int * 256 + frame[5] as int;
      currentHigh := high;
      expectingLow := true;
    }

    /** Completes a pulse count if a high half is pending; the position listeners stamp the heartbeat. */
    method HandleLowPosition(frame: seq<byte>, now: int)
      requires |frame| == FRAME_LENGTH && Classify(frame).PositionLow? && ChecksumValid(frame)
      modifies this`expectingLow, this`events, this`lastHeartbeat
      ensures Asm() == HandleFrame(old(Asm()), frame).asm
      ensures events == old(events) + HandleFrame(old(Asm()), frame).events
      ensures lastHeartbeat == if old(expectingLow) then now else old(lastHeartbeat)
    {
      if !expectingLow {
        return;
      }
      var low := frame[4] as int * 256 + frame[5] as int;
      var totalPulses := currentHigh * 0x1_0000 + low;
      if frame[3] == 0xDB {
        events := events + [PositionReceived(Horizontal, totalPulses)];
        lastHeartbeat := now;
      } else if frame[3] == 0xDF {
        events := events + [PositionReceived(Vertical, totalPulses)];
        lastHeartbeat := now;
      }
      expectingLow := false;
    }

    /**
     * The type test of one candidate frame: preset reports are handled
     * whatever their checksum, position halves only when the checksum
     * matches, anything else is skipped.
     */
    method DispatchFrame(frame: seq<byte>, now: int)
      requires |frame| == FRAME_LENGTH
      modifies this`currentHigh, this`expectingLow, this`events, this`lastHeartbeat
      ensures var step := HandleFrame(old(Asm()), frame);
              Asm() == step.asm && events == old(events) + step.events
      ensures lastHeartbeat
              == if HasPosition(HandleFrame(old(Asm()), frame).events) then now else old(lastHeartbeat)
    {
      ghost var step := HandleFrame(Asm(), frame);
      if |step.events| == 1 {
        assert step.events == [step.events[0]];
        HasPositionSingle(step.events[0]);
      }
      if frame[1] == 0x1A || frame[1] == 0x1B {
        HandlePresetReached(frame);
      } else if frame[1] == 0x01 && frame[2] == 0x00 {
        if frame[3] == 0xDC || frame[3] == 0xDE {
          var checksum := CalculateChecksum(frame, 1, 5);
          if frame[6] == checksum {
            HandleHighPosition(frame);
          }
        } else if frame[3] == 0xDB || frame[3] == 0xDF {
          var checksum := CalculateChecksum(frame, 1, 5);
          if frame[6] == checksum {
            HandleLowPosition(frame, now);
          }
        }
      }
    }

    /**
     * The parse loop over the accumulated buffer. It computes exactly Parse:
     * the buffer left is Parse's remainder, the assembler is Parse's, and the
     * listeners receive Parse's events in order.
     */
    method ParseResponse(now: int)
      requires Valid()
      modifies this`dataBuffer, this`currentHigh, this`expectingLow, this`events, this`lastHeartbeat
      ensures Valid()
      ensures var r := Parse(old(dataBuffer), old(Asm()));
              dataBuffer == r.rest && Asm() == r.asm && events == old(events) + r.events
      ensures lastHeartbeat
              == if HasPosition(Parse(old(dataBuffer), old(Asm())).events) then now else old(lastHeartbeat)
    {
      ghost var target := Parse(dataBuffer, Asm());
      ParseKeepsAssemblerValid(dataBuffer, Asm());
      ghost var cur := target;
      ghost var emitted: seq<Event> := [];
      AppendNil(events);
      while |dataBuffer| >= FRAME_LENGTH
        invariant cur == Parse(dataBuffer, Asm())
        invariant target == ParseResult(cur.rest, cur.asm, emitted + cur.events)
        invariant events == old(events) + emitted
        invariant lastHeartbeat == if HasPosition(emitted) then now else old(lastHeartbeat)
        decreases |dataBuffer|
      {
        var found := SeekFrame();
        if !found {
          AppendNil(emitted);
          return;
        }
        ghost var stepEvents := HandleFrame(Asm(), dataBuffer[..FRAME_LENGTH]).events;
        ConsumeFrontFrame(now);
        ghost var next := Parse(dataBuffer, Asm());
        AppendAssoc(emitted, stepEvents, next.events);
        AppendAssoc(old(events), emitted, stepEvents);
        HasPositionAppend(emitted, stepEvents);
        emitted := emitted + stepEvents;
        cur := next;
      }
      Resynchronise(dataBuffer, Asm());
      AppendNil(emitted);
    }

    /**
     * The tail of one pass of the parse loop: copy out the 7-byte candidate
     * frame at the front, handle it, and remove it from the buffer.
     */
    method ConsumeFrontFrame(now: int)
      requires |dataBuffer| >= FRAME_LENGTH && dataBuffer[0] == SYNC
      modifies this`dataBuffer, this`currentHigh, this`expectingLow, this`events, this`lastHeartbeat
      ensures var step := HandleFrame(old(Asm()), old(dataBuffer)[..FRAME_LENGTH]);
              var r := Parse(dataBuffer, Asm());
              Parse(old(dataBuffer), old(Asm())) == ParseResult(r.rest, r.asm, step.events + r.events)
              && events == old(events) + step.events
              && lastHeartbeat == if HasPosition(step.events) then now else old(lastHeartbeat)
      ensures dataBuffer == old(dataBuffer)[FRAME_LENGTH..]
      ensures Asm() == HandleFrame(old(Asm()), old(dataBuffer)[..FRAME_LENGTH]).asm
      ensures |dataBuffer| < |old(dataBuffer)|
    {
      var frame := dataBuffer[..FRAME_LENGTH];
      ConsumeFrame(dataBuffer, Asm());
      DispatchFrame(frame, now);
      RemoveFrameFromBuffer(FRAME_LENGTH);
    }

    /**
     * The head of one pass of the parse loop: clear a buffer without sync
     * byte, drop the bytes before the first sync byte, and report whether a
     * whole candidate frame now starts the buffer. Parse is unaffected.
     */
    method SeekFrame() returns (found: bool)
      requires |dataBuffer| >= FRAME_LENGTH
      modifies this`dataBuffer
      ensures found ==> |dataBuffer| >= FRAME_LENGTH && dataBuffer[0] == SYNC
                        && Parse(dataBuffer, Asm()) == Parse(old(dataBuffer), Asm())
      ensures dataBuffer == DropToSync(old(dataBuffer))
      ensures found <==> |dataBuffer| >= FRAME_LENGTH
      ensures |dataBuffer| <= |old(dataBuffer)|
      ensures !found ==> Parse(old(dataBuffer), Asm()) == ParseResult(dataBuffer, Asm(), [])
    {
      var startIndex := FindFrameStart(dataBuffer);
      Resynchronise(dataBuffer, Asm());
      if startIndex == -1 {
        dataBuffer := [];
        return false;
      }
      if startIndex > 0 {
        dataBuffer := dataBuffer[startIndex..];
      }
      Resynchronise(dataBuffer, Asm());
      found := |dataBuffer| >= FRAME_LENGTH;
    }

    /**
     * One read: append the bytes received, byte by byte, then run the parse
     * loop. Splitting a byte stream between reads does not change what the
     * listeners receive (lemma ParseSplit).
     */
    method Feed(chunk: seq<byte>, now: int)
      requires Valid()
      modifies this`dataBuffer, this`currentHigh, this`expectingLow, this`events, this`lastHeartbeat
      ensures Valid()
      ensures var r := Parse(old(dataBuffer) + chunk, old(Asm()));
              dataBuffer == r.rest && Asm() == r.asm && events == old(events) + r.events
      ensures lastHeartbeat
              == if HasPosition(Parse(old(dataBuffer) + chunk, old(Asm())).events) then now else old(lastHeartbeat)
      ensures |dataBuffer| < FRAME_LENGTH
    {
      for i := 0 to |chunk|
        invariant dataBuffer == old(dataBuffer) + chunk[..i]
        invariant Asm() == old(Asm()) && events == old(events) && lastHeartbeat == old(lastHeartbeat)
      {
        dataBuffer := dataBuffer + [chunk[i]];
      }
      assert chunk[..|chunk|] == chunk;
      ParseLeavesShortSuffix(dataBuffer, Asm());
      ParseResponse(now);
    }

    /**
     * The query half of the heartbeat: while connected, send the position
     * query for the axis; a failed send marks the link disconnected.
     */
    method HeartbeatQuery(axis: Axis, writeOk: bool)
      modifies this`sent, this`connected
      ensures old(connected) && writeOk ==>
                sent == old(sent) + Encode(QueryFor(axis)) && connected
      ensures old(connected) && !writeOk ==> sent == old(sent) && !connected
      ensures !old(connected) ==> sent == old(sent) && !connected
    {
      if connected {
        var ok := Send(QueryFor(axis), writeOk);
        if !ok {
          connected := false;
        }
      }
    }

    /** The watchdog half of the heartbeat: silence longer than the timeout marks the link disconnected. */
    method HeartbeatWatchdog(now: int, timeoutMs: int)
      modifies this`connected
      ensures connected == (old(connected) && !TimedOut(now, lastHeartbeat, timeoutMs))
    {
      if !connected {
        return;
      }
      if now - lastHeartbeat > timeoutMs {
        connected := false;
      }
    }
  }

  function QueryFor(axis: Axis): Command {
    if axis == Horizontal then QueryHorizontalPosition else QueryVerticalPosition
  }

  predicate TimedOut(now: int, lastHeartbeat: int, timeoutMs: int) {
    now - lastHeartbeat > timeoutMs
  }

  lemma HasPositionSingle(e: Event)
    ensures HasPosition([e]) == e.PositionReceived?
  {
    if e.PositionReceived? {
      assert e in [e];
    }
  }

  lemma HasPositionAppend(x: seq<Event>, y: seq<Event>)
    ensures HasPosition(x + y) <==> HasPosition(x) || HasPosition(y)
  {
    if HasPosition(x + y) {
      var e :| e in x + y && e.PositionReceived?;
      assert e in x || e in y;
    }
    if HasPosition(x) {
      var e :| e in x && e.PositionReceived?;
      assert e in x + y;
    }
    if HasPosition(y) {
      var e :| e in y && e.PositionReceived?;
      assert e in x + y;
    }
  }
}
