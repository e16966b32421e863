/**
 * What the rail's receive path does with the bytes it has accumulated, as
 * pure functions: the resynchronising frame scan, the classification of a
 * candidate frame, and the high/low position assembler. The imperative
 * receive path in module Robot is proved to compute exactly Parse.
 */
module FrameParser {
  import opened Wrappers
  import opened PelcoFrame

  datatype Axis = Horizontal | Vertical

  /** What the preset-reached and position listeners are told. */
  datatype Event =
    | PresetReached(preset: nat, axis: Axis)
    | PositionReceived(axis: Axis, pulses: nat)

  /** Classification of a candidate frame by byte 1 and bytes 2..3. */
  datatype Kind =
    | Preset(axis: Axis)
    | PositionHigh(axis: Axis)
    | PositionLow(axis: Axis)
    | Unknown

  function Classify(frame: seq<byte>): Kind
    requires |frame| == FRAME_LENGTH
  {
    if frame[1] == 0x1A then Preset(Horizontal)
    else if frame[1] == 0x1B then Preset(Vertical)
    else if frame[1] == 0x01 && frame[2] == 0x00 then
      if frame[3] == 0xDC then PositionHigh(Horizontal)
      else if frame[3] == 0xDE then PositionHigh(Vertical)
      else if frame[3] == 0xDB then PositionLow(Horizontal)
      else if frame[3] == 0xDF then PositionLow(Vertical)
      else Unknown
    else Unknown
  }

  /** The 16-bit big-endian value of two bytes: ((hi & 0xFF) << 8) | (lo & 0xFF). */
  function Word(hi: byte, lo: byte): nat {
    hi * 256 + lo
  }

  /**
   * The position assembler: the pending high half and whether a low half is
   * awaited. There is ONE slot, shared by both axes.
   */
  datatype Assembler = Assembler(currentHigh: nat, expectingLow: bool)

  /** The pending high half is a 16-bit value. */
  predicate AssemblerValid(a: Assembler) {
    a.currentHigh < 0x1_0000
  }

  datatype Step = Step(asm: Assembler, events: seq<Event>)

  /** The effect of one 7-byte candidate frame on the assembler and the listeners. */
  function HandleFrame(a: Assembler, frame: seq<byte>): Step
    requires |frame| == FRAME_LENGTH
  {
    match Classify(frame)
    case Preset(axis) =>
      Step(a, [PresetReached(Word(frame[4], frame[5]), axis)])
    case PositionHigh(_) =>
      if ChecksumValid(frame) then Step(Assembler(Word(frame[4], frame[5]), true), [])
      else Step(a, [])
    case PositionLow(axis) =>
      if !ChecksumValid(frame) || !a.expectingLow then Step(a, [])
      else Step(Assembler(a.currentHigh, false),
                [PositionReceived(axis, a.currentHigh * 0x1_0000 + Word(frame[4], frame[5]))])
    case Unknown =>
      Step(a, [])
  }

  /** Index of the first sync byte, if any. */
  function FirstSync(buf: seq<byte>): (r: Option<nat>)
    ensures r.Some? ==> r.value < |buf| && buf[r.value] == SYNC
  {
    if buf == [] then None
    else if buf[0] == SYNC then Some(0)
    else match FirstSync(buf[1..])
      case None => None
      case Some(k) => Some(k + 1)
  }

  /** FirstSync finds the first sync byte, and finds none exactly when there is none. */
  lemma {:induction false} FirstSyncIsFirst(buf: seq<byte>)
    ensures FirstSync(buf).Some? ==> forall j :: 0 <= j < FirstSync(buf).value ==> buf[j] != SYNC
    ensures FirstSync(buf).None? <==> SYNC !in buf
  {
    if buf != [] && buf[0] != SYNC {
      FirstSyncIsFirst(buf[1..]);
      assert buf == [buf[0]] + buf[1..];
    }
  }

  datatype ParseResult = ParseResult(rest: seq<byte>, asm: Assembler, events: seq<Event>)

  /**
   * The receive loop over the accumulated buffer: while at least 7 bytes are
   * buffered, clear a buffer without sync byte, drop the bytes before the
   * first sync byte, wait if fewer than 7 remain, else handle and consume the
   * 7-byte candidate frame.
   */
  function Parse(buf: seq<byte>, a: Assembler): ParseResult
    decreases |buf|
  {
    if |buf| < FRAME_LENGTH then ParseResult(buf, a, [])
    else match FirstSync(buf)
      case None => ParseResult([], a, [])
      case Some(k) =>
        var framed := buf[k..];
        if |framed| < FRAME_LENGTH then ParseResult(framed, a, [])
        else
          var step := HandleFrame(a, framed[..FRAME_LENGTH]);
          var r := Parse(framed[FRAME_LENGTH..], step.asm);
          ParseResult(r.rest, r.asm, step.events + r.events)
  }

  /** The buffer with the bytes before its first sync byte dropped (all of it if there is none). */
  function DropToSync(buf: seq<byte>): (r: seq<byte>)
    ensures r == [] || r[0] == SYNC
    ensures |r| <= |buf|
  {
    match FirstSync(buf)
    case None => []
    case Some(k) => buf[k..]
  }

  /**
   * Two parse results that the future cannot tell apart: the same events, the
   * same assembler, and remainders that agree from their first sync byte on
   * (bytes before the first sync byte are dropped unseen by any later parse).
   */
  predicate SameOutcome(r1: ParseResult, r2: ParseResult) {
    r1.events == r2.events && r1.asm == r2.asm && DropToSync(r1.rest) == DropToSync(r2.rest)
  }

  // ---------------------------------------------------------------------
  // Resynchronisation and progress
  // ---------------------------------------------------------------------

  /**
   * The three resynchronisation rules: a short buffer is left untouched, a
   * buffer of 7 or more bytes without sync byte is cleared, and otherwise the
   * bytes before the first sync byte are dropped.
   */
  lemma Resynchronise(buf: seq<byte>, a: Assembler)
    ensures |buf| < FRAME_LENGTH ==> Parse(buf, a) == ParseResult(buf, a, [])
    ensures |buf| >= FRAME_LENGTH && SYNC !in buf ==> Parse(buf, a) == ParseResult([], a, [])
    ensures |buf| >= FRAME_LENGTH && SYNC in buf ==> Parse(buf, a) == Parse(DropToSync(buf), a)
  {
    FirstSyncIsFirst(buf);
  }

  /** A buffer starting with a sync byte and holding a whole frame loses exactly that frame. */
  lemma ConsumeFrame(buf: seq<byte>, a: Assembler)
    requires |buf| >= FRAME_LENGTH && buf[0] == SYNC
    ensures var step := HandleFrame(a, buf[..FRAME_LENGTH]);
            var r := Parse(buf[FRAME_LENGTH..], step.asm);
            Parse(buf, a) == ParseResult(r.rest, r.asm, step.events + r.events)
  {
  }

  /** The loop always stops with fewer than 7 bytes left, and what is left is a suffix of the input. */
  lemma {:induction false} ParseLeavesShortSuffix(buf: seq<byte>, a: Assembler)
    ensures |Parse(buf, a).rest| < FRAME_LENGTH
    ensures Parse(buf, a).rest == buf[|buf| - |Parse(buf, a).rest|..]
    decreases |buf|
  {
    if |buf| >= FRAME_LENGTH {
      match FirstSync(buf)
      case None =>
      case Some(k) =>
        var framed := buf[k..];
        if |framed| >= FRAME_LENGTH {
          var step := HandleFrame(a, framed[..FRAME_LENGTH]);
          var tail := framed[FRAME_LENGTH..];
          ParseLeavesShortSuffix(tail, step.asm);
          var rest := Parse(tail, step.asm).rest;
          assert Parse(buf, a).rest == rest;
          assert tail == buf[k + FRAME_LENGTH..];
          assert |buf| - |rest| == k + FRAME_LENGTH + (|tail| - |rest|);
          assert buf[|buf| - |rest|..] == tail[|tail| - |rest|..];
        }
    }
  }

  lemma {:induction false} FirstSyncAfterNoise(g: seq<byte>, buf: seq<byte>)
    requires SYNC !in g
    ensures FirstSync(g + buf) == match FirstSync(buf) case None => None case Some(k) => Some(|g| + k)
  {
    FirstSyncIsFirst(buf);
    FirstSyncIsFirst(g + buf);
    if SYNC in buf {
      var k := FirstSync(buf).value;
      assert (g + buf)[|g| + k] == SYNC;
    } else {
      forall j | 0 <= j < |g + buf| ensures (g + buf)[j] != SYNC {
        if j < |g| { assert (g + buf)[j] == g[j]; } else { assert (g + buf)[j] == buf[j - |g|]; }
      }
    }
  }

  /**
   * Noise without a sync byte in front of a buffer that starts with a whole
   * frame changes nothing: the frame and everything after it are decoded as
   * if the noise had not been there.
   */
  lemma NoiseBeforeFrame(g: seq<byte>, buf: seq<byte>, a: Assembler)
    requires SYNC !in g
    requires |buf| >= FRAME_LENGTH && buf[0] == SYNC
    ensures Parse(g + buf, a) == Parse(buf, a)
  {
    FirstSyncAfterNoise(g, buf);
    assert (g + buf)[|g|..] == buf;
  }

  // ---------------------------------------------------------------------
  // Checksums, presets and position assembly
  // ---------------------------------------------------------------------

  /** A position frame whose byte 6 is not the checksum of bytes 1..5 reaches neither the assembler nor a listener. */
  lemma BadChecksumIgnored(a: Assembler, frame: seq<byte>)
    requires |frame| == FRAME_LENGTH
    requires Classify(frame).PositionHigh? || Classify(frame).PositionLow?
    requires !ChecksumValid(frame)
    ensures HandleFrame(a, frame) == Step(a, [])
  {
  }

  /**
   * A preset frame (byte 1 = 0x1A or 0x1B) is reported whatever its byte 6:
   * preset number data1 * 256 + data2, Horizontal exactly when byte 1 is 0x1A.
   */
  lemma PresetReport(a: Assembler, frame: seq<byte>, c: byte)
    requires |frame| == FRAME_LENGTH
    requires frame[1] == 0x1A || frame[1] == 0x1B
    ensures HandleFrame(a, frame).asm == a
    ensures |HandleFrame(a, frame).events| == 1
    ensures HandleFrame(a, frame).events[0].PresetReached?
    ensures HandleFrame(a, frame).events[0].preset == frame[4] as int * 256 + frame[5] as int
    ensures HandleFrame(a, frame).events[0].axis == Horizontal <==> frame[1] == 0x1A
    ensures HandleFrame(a, frame[6 := c]) == HandleFrame(a, frame)
  {
  }

  /** A valid high frame (either axis) overwrites the pending high half and arms the slot. */
  lemma HighHalfStored(a: Assembler, frame: seq<byte>)
    requires |frame| == FRAME_LENGTH && Classify(frame).PositionHigh? && ChecksumValid(frame)
    ensures HandleFrame(a, frame) == Step(Assembler(frame[4] as int * 256 + frame[5] as int, true), [])
    ensures AssemblerValid(HandleFrame(a, frame).asm)
  {
  }

  /** A low frame with no high half pending is discarded without trace. */
  lemma UnmatchedLowDiscarded(a: Assembler, frame: seq<byte>)
    requires |frame| == FRAME_LENGTH && Classify(frame).PositionLow?
    requires !a.expectingLow
    ensures HandleFrame(a, frame) == Step(a, [])
  {
  }

  /**
   * A valid low frame after a high half completes a 32-bit pulse count on the
   * low frame's axis (0xDB Horizontal, 0xDF Vertical) and disarms the slot.
   */
  lemma LowHalfCompletes(a: Assembler, frame: seq<byte>)
    requires |frame| == FRAME_LENGTH && Classify(frame).PositionLow? && ChecksumValid(frame)
    requires a.expectingLow && AssemblerValid(a)
    ensures HandleFrame(a, frame).asm == Assembler(a.currentHigh, false)
    ensures HandleFrame(a, frame).events
            == [PositionReceived(if frame[3] == 0xDB then Horizontal else Vertical,
                                 a.currentHigh * 65536 + frame[4] as int * 256 + frame[5] as int)]
    ensures HandleFrame(a, frame).events[0].pulses < 0x1_0000_0000
  {
  }

  /** The pulse count of the frames FF 01 00 DC hi1 hi2 cs / FF 01 00 DB lo1 lo2 cs. */
  function HighFrame(axis: Axis, h1: byte, h2: byte): seq<byte> {
    Frame(Fields(0x01, 0x00, if axis == Horizontal then 0xDC else 0xDE, h1, h2))
  }

  function LowFrame(axis: Axis, l1: byte, l2: byte): seq<byte> {
    Frame(Fields(0x01, 0x00, if axis == Horizontal then 0xDB else 0xDF, l1, l2))
  }

  /**
   * Feeding a high frame and then a low frame yields exactly one position
   * event, (high << 16) | low on the low frame's axis, and consumes both frames.
   * The high frame may be for the other axis: the slot is shared.
   */
  lemma HighThenLow(highAxis: Axis, lowAxis: Axis, h1: byte, h2: byte, l1: byte, l2: byte, a: Assembler)
    ensures Parse(HighFrame(highAxis, h1, h2) + LowFrame(lowAxis, l1, l2), a)
         == ParseResult([], Assembler(h1 * 256 + h2, false),
                        [PositionReceived(lowAxis, (h1 * 256 + h2) * 65536 + l1 * 256 + l2)])
  {
    var hf := HighFrame(highAxis, h1, h2);
    var lf := LowFrame(lowAxis, l1, l2);
    var buf := hf + lf;
    FrameLayout(Fields(0x01, 0x00, if highAxis == Horizontal then 0xDC else 0xDE, h1, h2));
    FrameLayout(Fields(0x01, 0x00, if lowAxis == Horizontal then 0xDB else 0xDF, l1, l2));
    DecodeFrame(Fields(0x01, 0x00, if highAxis == Horizontal then 0xDC else 0xDE, h1, h2));
    DecodeFrame(Fields(0x01, 0x00, if lowAxis == Horizontal then 0xDB else 0xDF, l1, l2));
    assert buf[..FRAME_LENGTH] == hf;
    assert buf[FRAME_LENGTH..] == lf;
    assert lf[..FRAME_LENGTH] == lf;
    assert lf[FRAME_LENGTH..] == [];
    var a1 := Assembler(h1 * 256 + h2, true);
    assert HandleFrame(a, hf) == Step(a1, []);
    ConsumeFrame(buf, a);
    ConsumeFrame(lf, a1);
  }

  /** The two frames of the worked example, byte for byte. */
  lemma WorkedExampleFrames()
    ensures HighFrame(Horizontal, 0x00, 0x05) == [0xFF, 0x01, 0x00, 0xDC, 0x00, 0x05, 0xE2]
    ensures LowFrame(Horizontal, 0x00, 0x0A) == [0xFF, 0x01, 0x00, 0xDB, 0x00, 0x0A, 0xE6]
  {
    FrameLayout(Fields(0x01, 0x00, 0xDC, 0x00, 0x05));
    FrameLayout(Fields(0x01, 0x00, 0xDB, 0x00, 0x0A));
  }

  /** The worked example: FF 01 00 DC 00 05 E2 then FF 01 00 DB 00 0A E6 gives 327690 pulses, horizontally. */
  lemma WorkedExample(a: Assembler)
    ensures Parse([0xFF, 0x01, 0x00, 0xDC, 0x00, 0x05, 0xE2, 0xFF, 0x01, 0x00, 0xDB, 0x00, 0x0A, 0xE6], a).events
         == [PositionReceived(Horizontal, 327690)]
  {
    WorkedExampleFrames();
    var hf: seq<byte> := [0xFF, 0x01, 0x00, 0xDC, 0x00, 0x05, 0xE2];
    var lf: seq<byte> := [0xFF, 0x01, 0x00, 0xDB, 0x00, 0x0A, 0xE6];
    assert hf + lf == [0xFF, 0x01, 0x00, 0xDC, 0x00, 0x05, 0xE2, 0xFF, 0x01, 0x00, 0xDB, 0x00, 0x0A, 0xE6];
    HighThenLow(Horizontal, Horizontal, 0x00, 0x05, 0x00, 0x0A, a);
  }

  /** Parsing keeps the pending high half 16-bit, so every reported pulse count fits in 32 bits. */
  lemma {:induction false} ParseKeepsAssemblerValid(buf: seq<byte>, a: Assembler)
    requires AssemblerValid(a)
    ensures AssemblerValid(Parse(buf, a).asm)
    ensures forall e :: e in Parse(buf, a).events && e.PositionReceived? ==> e.pulses < 0x1_0000_0000
    decreases |buf|
  {
    if |buf| >= FRAME_LENGTH {
      match FirstSync(buf)
      case None =>
      case Some(k) =>
        var framed := buf[k..];
        if |framed| >= FRAME_LENGTH {
          var step := HandleFrame(a, framed[..FRAME_LENGTH]);
          assert AssemblerValid(step.asm);
          assert forall e :: e in step.events && e.PositionReceived? ==> e.pulses < 0x1_0000_0000;
          ParseKeepsAssemblerValid(framed[FRAME_LENGTH..], step.asm);
        }
    }
  }

  // ---------------------------------------------------------------------
  // Streaming: splitting the input between two reads changes nothing
  // ---------------------------------------------------------------------

  /** Parsing only looks at the buffer from its first sync byte on. */
  lemma ParseFromSync(buf: seq<byte>, a: Assembler)
    ensures SameOutcome(Parse(buf, a), Parse(DropToSync(buf), a))
  {
    var d := DropToSync(buf);
    if |buf| < FRAME_LENGTH {
      if d != [] {
        assert FirstSync(d) == Some(0);
        assert d[0..] == d;
      }
    } else if SYNC !in buf {
    } else {
      assert Parse(buf, a) == Parse(d, a);
      var r := Parse(d, a).rest;
      if r != [] && r[0] == SYNC {
        assert FirstSync(r) == Some(0);
        assert r[0..] == r;
      }
    }
  }

  /**
   * Decoding is streamable: parsing b1, then parsing its remainder with b2
   * appended, gives the same events and assembler state as parsing b1 + b2 at
   * once, and a remainder that no later parse can tell apart.
   */
  lemma {:induction false} ParseSplit(b1: seq<byte>, b2: seq<byte>, a: Assembler)
    ensures var r1 := Parse(b1, a);
            var r2 := Parse(r1.rest + b2, r1.asm);
            SameOutcome(Parse(b1 + b2, a), ParseResult(r2.rest, r2.asm, r1.events + r2.events))
    decreases |b1|, 2
  {
    FirstSyncIsFirst(b1);
    if |b1| < FRAME_LENGTH {
      assert Parse(b1, a) == ParseResult(b1, a, []);
      assert [] + Parse(b1 + b2, a).events == Parse(b1 + b2, a).events;
    } else if SYNC !in b1 {
      assert Parse(b1, a) == ParseResult([], a, []);
      assert [] + b2 == b2;
      NoisePrefixSameOutcome(b1, b2, a);
    } else {
      ParseSplitAtSync(b1, b2, a);
    }
  }

  /** ParseSplit when b1 holds a sync byte and at least 7 bytes. */
  lemma {:induction false} ParseSplitAtSync(b1: seq<byte>, b2: seq<byte>, a: Assembler)
    requires |b1| >= FRAME_LENGTH && SYNC in b1
    ensures var r1 := Parse(b1, a);
            var r2 := Parse(r1.rest + b2, r1.asm);
            SameOutcome(Parse(b1 + b2, a), ParseResult(r2.rest, r2.asm, r1.events + r2.events))
    decreases |b1|, 1
  {
    SplitAtSync(b1, b2, a);
    var k := FirstSync(b1).value;
    var framed := b1[k..];
    if |framed| < FRAME_LENGTH {
      assert Parse(framed, a) == ParseResult(framed, a, []);
      assert [] + Parse(framed + b2, a).events == Parse(framed + b2, a).events;
    } else {
      ParseSplitFrame(framed, b2, a);
    }
  }

  /** ParseSplit when b1 starts with a whole frame. */
  lemma {:induction false} ParseSplitFrame(framed: seq<byte>, b2: seq<byte>, a: Assembler)
    requires |framed| >= FRAME_LENGTH && framed[0] == SYNC
    ensures var r1 := Parse(framed, a);
            var r2 := Parse(r1.rest + b2, r1.asm);
            SameOutcome(Parse(framed + b2, a), ParseResult(r2.rest, r2.asm, r1.events + r2.events))
    decreases |framed|, 0
  {
    var step := HandleFrame(a, framed[..FRAME_LENGTH]);
    var tail := framed[FRAME_LENGTH..];
    SplitAfterFrame(framed, b2, a);
    ParseSplit(tail, b2, step.asm);
    var t1 := Parse(tail, step.asm);
    CombineOutcome(step.events, Parse(tail + b2, step.asm), t1, Parse(t1.rest + b2, t1.asm));
  }

  lemma CombineOutcome(ev: seq<Event>, whole: ParseResult, t1: ParseResult, t2: ParseResult)
    requires SameOutcome(whole, ParseResult(t2.rest, t2.asm, t1.events + t2.events))
    ensures SameOutcome(ParseResult(whole.rest, whole.asm, ev + whole.events),
                        ParseResult(t2.rest, t2.asm, (ev + t1.events) + t2.events))
  {
    assert ev + (t1.events + t2.events) == (ev + t1.events) + t2.events;
  }

  /** Both b1 and b1 + b2 are parsed from b1's first sync byte on. */
  lemma SplitAtSync(b1: seq<byte>, b2: seq<byte>, a: Assembler)
    requires |b1| >= FRAME_LENGTH && SYNC in b1
    ensures FirstSync(b1).Some?
    ensures var k := FirstSync(b1).value;
            Parse(b1, a) == Parse(b1[k..], a) && Parse(b1 + b2, a) == Parse(b1[k..] + b2, a)
  {
    FirstSyncIsFirst(b1);
    var k := FirstSync(b1).value;
    FirstSyncOfPrefix(b1, b2);
    assert (b1 + b2)[k..] == b1[k..] + b2;
    var c := b1[k..] + b2;
    assert c[0] == SYNC;
    assert FirstSync(c) == Some(0);
    assert c[0..] == c;
    var d := b1[k..];
    assert FirstSync(d) == Some(0);
    assert d[0..] == d;
  }

  /** With a whole frame at the front, b1 + b2 loses the same frame as b1. */
  lemma SplitAfterFrame(framed: seq<byte>, b2: seq<byte>, a: Assembler)
    requires |framed| >= FRAME_LENGTH && framed[0] == SYNC
    ensures var step := HandleFrame(a, framed[..FRAME_LENGTH]);
            var t1 := Parse(framed[FRAME_LENGTH..], step.asm);
            var whole := Parse(framed[FRAME_LENGTH..] + b2, step.asm);
            && Parse(framed, a) == ParseResult(t1.rest, t1.asm, step.events + t1.events)
            && Parse(framed + b2, a) == ParseResult(whole.rest, whole.asm, step.events + whole.events)
  {
    ConsumeFrame(framed, a);
    var c := framed + b2;
    assert c[..FRAME_LENGTH] == framed[..FRAME_LENGTH];
    assert c[FRAME_LENGTH..] == framed[FRAME_LENGTH..] + b2;
    ConsumeFrame(c, a);
  }

  lemma FirstSyncOfPrefix(b1: seq<byte>, b2: seq<byte>)
    requires SYNC in b1
    ensures FirstSync(b1 + b2) == FirstSync(b1)
  {
    FirstSyncIsFirst(b1);
    FirstSyncIsFirst(b1 + b2);
    var k := FirstSync(b1).value;
    assert (b1 + b2)[k] == SYNC;
  }

  /** A long noise block (no sync byte) followed by b2 behaves like b2 alone. */
  lemma NoisePrefixSameOutcome(g: seq<byte>, b2: seq<byte>, a: Assembler)
    requires |g| >= FRAME_LENGTH && SYNC !in g
    ensures SameOutcome(Parse(g + b2, a), Parse(b2, a))
  {
    FirstSyncAfterNoise(g, b2);
    ParseFromSync(b2, a);
    FirstSyncIsFirst(b2);
    if SYNC in b2 {
      var j := FirstSync(b2).value;
      assert (g + b2)[|g| + j..] == b2[j..];
      assert Parse(g + b2, a) == Parse(b2[j..], a);
      ParseFromSync(b2[j..], a);
      assert DropToSync(b2[j..]) == b2[j..] by {
        assert FirstSync(b2[j..]) == Some(0);
      }
    } else {
      assert Parse(g + b2, a) == ParseResult([], a, []);
      assert DropToSync(b2) == [];
    }
  }

  /** Appending bytes to a buffer: from its first sync byte on, the result is the old buffer's plus the new bytes, or the new bytes' own when the old buffer has no sync byte. */
  lemma DropToSyncAppend(r: seq<byte>, b: seq<byte>)
    ensures DropToSync(r + b) == if SYNC in r then DropToSync(r) + b else DropToSync(b)
  {
    if SYNC in r {
      FirstSyncIsFirst(r);
      FirstSyncOfPrefix(r, b);
      var k := FirstSync(r).value;
      assert (r + b)[k..] == r[k..] + b;
    } else {
      FirstSyncAfterNoise(r, b);
      match FirstSync(b)
      case None =>
      case Some(k) =>
        assert (r + b)[|r| + k..] == b[k..];
    }
  }

  /**
   * Remainders that agree from their first sync byte on cannot be told apart
   * by any later read: whatever bytes arrive next, both parse to the same
   * events and assembler, and again to indistinguishable remainders.
   */
  lemma SameRemainderSameFuture(r1: seq<byte>, r2: seq<byte>, b: seq<byte>, a: Assembler)
    requires DropToSync(r1) == DropToSync(r2)
    ensures SameOutcome(Parse(r1 + b, a), Parse(r2 + b, a))
  {
    FirstSyncIsFirst(r1);
    FirstSyncIsFirst(r2);
    DropToSyncAppend(r1, b);
    DropToSyncAppend(r2, b);
    assert DropToSync(r1 + b) == DropToSync(r2 + b);
    ParseFromSync(r1 + b, a);
    ParseFromSync(r2 + b, a);
  }
}
