/**
 * The 7-byte Pelco-D style frame spoken by the inspection rail:
 *
 *   FF  address  cmd1  cmd2  data1  data2  checksum
 *
 * where the checksum is the unsigned sum of bytes 1..5 modulo 256, and the
 * fixed command tuples that the rail's movement, light, speed, preset,
 * auxiliary and position-query operations send.
 */
module PelcoFrame {
  import opened Wrappers

  /** An octet. Java's signed byte is modelled by its unsigned value (b & 0xFF). */
  type byte = b: int | 0 <= b < 256

  const SYNC: byte := 0xFF
  const FRAME_LENGTH: nat := 7

  /** The five bytes between the sync byte and the checksum, in wire order. */
  datatype Fields = Fields(address: byte, cmd1: byte, cmd2: byte, data1: byte, data2: byte)

  function Payload(f: Fields): seq<byte> {
    [f.address, f.cmd1, f.cmd2, f.data1, f.data2]
  }

  /** Unsigned sum of a byte sequence, accumulated left to right. */
  function Sum(s: seq<byte>): nat {
    if s == [] then 0 else Sum(s[..|s| - 1]) + s[|s| - 1]
  }

  function Checksum(s: seq<byte>): byte {
    Sum(s) % 256
  }

  /** The frame that carries the given fields. */
  function Frame(f: Fields): seq<byte> {
    [SYNC] + Payload(f) + [Checksum(Payload(f))]
  }

  /** Byte 6 of a candidate frame matches the checksum of bytes 1..5. */
  predicate ChecksumValid(frame: seq<byte>)
    requires |frame| == FRAME_LENGTH
  {
    frame[6] == Checksum(frame[1..6])
  }

  /** Reading a frame back: its fields when sync byte and checksum are right. */
  function Decode(frame: seq<byte>): Option<Fields> {
    if |frame| == FRAME_LENGTH && frame[0] == SYNC && ChecksumValid(frame)
    then Some(Fields(frame[1], frame[2], frame[3], frame[4], frame[5]))
    else None
  }

  lemma {:induction false} SumOfPayload(f: Fields)
    ensures Sum(Payload(f)) == f.address + f.cmd1 + f.cmd2 + f.data1 + f.data2
  {
    var p := Payload(f);
    assert p[..4] == [f.address, f.cmd1, f.cmd2, f.data1];
    assert [f.address, f.cmd1, f.cmd2, f.data1][..3] == [f.address, f.cmd1, f.cmd2];
    assert [f.address, f.cmd1, f.cmd2][..2] == [f.address, f.cmd1];
    assert [f.address, f.cmd1][..1] == [f.address];
    assert [f.address][..0] == [];
    assert Sum([f.address]) == f.address;
    assert Sum([f.address, f.cmd1]) == f.address + f.cmd1;
    assert Sum([f.address, f.cmd1, f.cmd2]) == f.address + f.cmd1 + f.cmd2;
    assert Sum(p[..4]) == f.address + f.cmd1 + f.cmd2 + f.data1;
  }

  /** The layout of an encoded frame: length 7, sync byte, the five fields, and their sum mod 256. */
  lemma FrameLayout(f: Fields)
    ensures |Frame(f)| == FRAME_LENGTH
    ensures Frame(f)[0] == 0xFF
    ensures Frame(f)[1] == f.address && Frame(f)[2] == f.cmd1 && Frame(f)[3] == f.cmd2
    ensures Frame(f)[4] == f.data1 && Frame(f)[5] == f.data2
    ensures Frame(f)[6] == (f.address + f.cmd1 + f.cmd2 + f.data1 + f.data2) % 256
  {
    SumOfPayload(f);
  }

  /** Every encoded frame passes the receiver's checksum test and decodes to its fields. */
  lemma DecodeFrame(f: Fields)
    ensures ChecksumValid(Frame(f))
    ensures Decode(Frame(f)) == Some(f)
  {
    assert Frame(f)[1..6] == Payload(f);
  }

  /** A frame that decodes is exactly the encoding of what it decodes to. */
  lemma FrameOfDecode(frame: seq<byte>, f: Fields)
    requires Decode(frame) == Some(f)
    ensures Frame(f) == frame
  {
    assert Payload(f) == frame[1..6];
  }

  /** The checksum loop of the encoder and of the receiver, over data[start..start + length]. */
  method CalculateChecksum(data: seq<byte>, start: nat, length: nat) returns (c: byte)
    requires start + length <= |data|
    ensures c == Checksum(data[start..start + length])
  {
    var sum: nat := 0;
    var i := start;
    while i < start + length
      invariant start <= i <= start + length
      invariant sum == Sum(data[start..i])
    {
      assert data[start..i + 1][..i - start] == data[start..i];
      sum := sum + data[i];
      i := i + 1;
    }
    c := sum % 256;
  }

  /** Fills a fresh 7-byte buffer with sync byte, fields and checksum. */
  method BuildPelcoDCommand(f: Fields) returns (buffer: array<byte>)
    ensures fresh(buffer)
    ensures buffer[..] == Frame(f)
  {
    buffer := new byte[7];
    buffer[0] := SYNC;
    buffer[1] := f.address;
    buffer[2] := f.cmd1;
    buffer[3] := f.cmd2;
    buffer[4] := f.data1;
    buffer[5] := f.data2;
    assert buffer[1..6] == Payload(f);
    buffer[6] := CalculateChecksum(buffer[..], 1, 5);
  }

  // ---------------------------------------------------------------------
  // Command tuples
  // ---------------------------------------------------------------------

  datatype Direction = Left | Right | Up | Down

  /** The rail operations that send one frame each. */
  datatype Command =
    | Move(direction: Direction, enable: bool)
    | SetLight(enable: bool)
    | SetHighSpeed(enable: bool)
    | SetPreset(preset: byte)
    | GotoPreset(preset: byte)
    | AuxControl(functionCode: byte, enable: bool)
    | QueryHorizontalPosition
    | QueryVerticalPosition

  function DirectionCode(d: Direction): byte {
    match d
    case Left => 0x01
    case Right => 0x02
    case Up => 0x06
    case Down => 0x05
  }

  /** cmd2 of the switching commands: 0x09 switches on, 0x0B switches off. */
  function SwitchCode(enable: bool): byte {
    if enable then 0x09 else 0x0B
  }

  /** The tuple each operation sends; all go to address 0x01 with cmd1 = data1 = 0x00. */
  function CommandFields(c: Command): (f: Fields)
    ensures f.address == 0x01 && f.cmd1 == 0x00 && f.data1 == 0x00
  {
    match c
    case Move(d, enable) => Fields(0x01, 0x00, SwitchCode(enable), 0x00, DirectionCode(d))
    case SetLight(enable) => Fields(0x01, 0x00, SwitchCode(enable), 0x00, 0x03)
    case SetHighSpeed(enable) => Fields(0x01, 0x00, SwitchCode(enable), 0x00, 0x04)
    case SetPreset(n) => Fields(0x01, 0x00, 0x03, 0x00, n)
    case GotoPreset(n) => Fields(0x01, 0x00, 0x07, 0x00, n)
    case AuxControl(code, enable) => Fields(0x01, 0x00, SwitchCode(enable), 0x00, code)
    case QueryHorizontalPosition => Fields(0x01, 0x00, 0xEB, 0x00, 0x00)
    case QueryVerticalPosition => Fields(0x01, 0x00, 0xEA, 0x00, 0x00)
  }

  /** The bytes an operation puts on the wire. */
  function Encode(c: Command): seq<byte> {
    Frame(CommandFields(c))
  }

  /** The direction codes are pairwise distinct, so a move frame names one direction. */
  lemma DirectionCodeInjective(d1: Direction, d2: Direction)
    requires DirectionCode(d1) == DirectionCode(d2)
    ensures d1 == d2
  {
  }

  /**
   * Switching operations (move, light, high speed, auxiliary) send cmd2 0x09
   * exactly when they enable and 0x0B exactly when they disable.
   */
  lemma SwitchFrames(c: Command)
    requires c.Move? || c.SetLight? || c.SetHighSpeed? || c.AuxControl?
    ensures Encode(c)[3] == 0x09 <==> c.enable
    ensures Encode(c)[3] == 0x0B <==> !c.enable
    ensures c.Move? ==> Encode(c)[5] == DirectionCode(c.direction)
    ensures c.SetLight? ==> Encode(c)[5] == 0x03
    ensures c.SetHighSpeed? ==> Encode(c)[5] == 0x04
    ensures c.AuxControl? ==> Encode(c)[5] == c.functionCode
  {
    FrameLayout(CommandFields(c));
  }

  /** Light and high speed are the auxiliary switches 0x03 and 0x04 on the wire. */
  lemma LightAndSpeedAreAuxSwitches(enable: bool)
    ensures Encode(SetLight(enable)) == Encode(AuxControl(0x03, enable))
    ensures Encode(SetHighSpeed(enable)) == Encode(AuxControl(0x04, enable))
  {
  }

  /** Presets: cmd2 0x03 stores, 0x07 recalls, data2 is the preset number, checksum included. */
  lemma PresetFrames(n: byte)
    ensures Encode(SetPreset(n)) == [0xFF, 0x01, 0x00, 0x03, 0x00, n, (0x04 + n) % 256]
    ensures Encode(GotoPreset(n)) == [0xFF, 0x01, 0x00, 0x07, 0x00, n, (0x08 + n) % 256]
  {
    SumOfPayload(CommandFields(SetPreset(n)));
    SumOfPayload(CommandFields(GotoPreset(n)));
  }

  /** The two position queries are exactly the documented frames FF 01 00 EB 00 00 EC and FF 01 00 EA 00 00 EB. */
  lemma QueryFrames()
    ensures Encode(QueryHorizontalPosition) == [0xFF, 0x01, 0x00, 0xEB, 0x00, 0x00, 0xEC]
    ensures Encode(QueryVerticalPosition) == [0xFF, 0x01, 0x00, 0xEA, 0x00, 0x00, 0xEB]
  {
    SumOfPayload(CommandFields(QueryHorizontalPosition));
    SumOfPayload(CommandFields(QueryVerticalPosition));
  }
}
