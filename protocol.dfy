/** The controller's wire protocol as a trace of transport events: every byte goes
    out either as a command (data/command line low) or as data (line high). The
    register constants are the controller's command codes. */
module Protocol {
  import opened Arithmetic
  import opened Bytes

  datatype Event =
    | Command(code: bv8)   // send_command: DC line low, one byte
    | Data(byte: bv8)      // send_data: DC line high, one byte
    | ResetPulse           // reset(): RST low for 200 ms, then high for 200 ms
    | BusyWait             // the busy-line poll of wait_until_idle, until it reads idle

  const PanelSetting: bv8 := 0x00
  const PowerSetting: bv8 := 0x01
  const PowerOn: bv8 := 0x04
  const BoosterSoftStart: bv8 := 0x06
  const DeepSleep: bv8 := 0x07
  const DataStartTransmission1: bv8 := 0x10
  const DisplayRefresh: bv8 := 0x12
  const DataStartTransmission2: bv8 := 0x13
  const PartialDataStartTransmission1: bv8 := 0x14
  const PartialDataStartTransmission2: bv8 := 0x15
  const PartialDisplayRefresh: bv8 := 0x16
  const LutForVcom: bv8 := 0x20
  const LutWhiteToWhite: bv8 := 0x21
  const LutBlackToWhite: bv8 := 0x22
  const LutWhiteToBlack: bv8 := 0x23
  const LutBlackToBlack: bv8 := 0x24
  const PllControl: bv8 := 0x30
  const GetStatus: bv8 := 0x71
  const VcmDcSettingRegister: bv8 := 0x82
  /** The vendor's undocumented "power optimization" register. */
  const PowerOptimization: bv8 := 0xF8
  /** The check code that must follow the deep-sleep command. */
  const DeepSleepCheckCode: bv8 := 0xA5

  /** Each byte sent as data, in order. */
  function DataEvents(bytes: seq<bv8>): (es: seq<Event>)
    ensures |es| == |bytes|
  {
    seq(|bytes|, i requires 0 <= i < |bytes| => Data(bytes[i]))
  }

  /** Appending to a trace one piece after another, as grouping the pieces first. */
  lemma TraceAppend(t: seq<Event>, sent: seq<Event>, piece: seq<Event>)
    ensures t + sent + piece == t + (sent + piece)
  {
  }

  lemma DataEventsAppend(a: seq<bv8>, b: seq<bv8>)
    ensures DataEvents(a + b) == DataEvents(a) + DataEvents(b)
  {
  }

  /** The two bytes of a controller coordinate: `v >> 8`, then the low byte under
      `mask` (the source's `v & 0xff`, or `v & 0xf8` for horizontal values). */
  function HighByte(v: nat): bv8
    requires v < 0x10000
  {
    (v / 0x100) as bv8
  }

  function LowByte(v: nat, mask: bv8): bv8
    requires v < 0x10000
  {
    ((v % 0x100) as bv8) & mask
  }

  /** The eight-byte region header of a partial transfer, for a region with top-left
      corner (x, y), height `l` and width `w`: x, y, then the width before the height. */
  function RegionHeader(x: nat, y: nat, l: nat, w: nat): (header: seq<bv8>)
    requires x < 0x10000 && y < 0x10000 && l < 0x10000 && w < 0x10000
    ensures |header| == 8
  {
    [HighByte(x), LowByte(x, 0xf8), HighByte(y), LowByte(y, 0xff),
     HighByte(w), LowByte(w, 0xf8), HighByte(l), LowByte(l, 0xff)]
  }

  /** The header bytes, as numbers: each coordinate big-endian, with the low three
      bits of x and of the width cleared. */
  lemma RegionHeaderBytes(x: nat, y: nat, l: nat, w: nat)
    requires x < 0x10000 && y < 0x10000 && l < 0x10000 && w < 0x10000
    ensures var header := RegionHeader(x, y, l, w);
            header[0] as int == x / 256 && header[1] as int == x % 256 / 8 * 8 &&
            header[2] as int == y / 256 && header[3] as int == y % 256 &&
            header[4] as int == w / 256 && header[5] as int == w % 256 / 8 * 8 &&
            header[6] as int == l / 256 && header[7] as int == l % 256
  {
    HighByteValue(x); LowByteValue(x);
    HighByteValue(y); LowByteValue(y);
    HighByteValue(w); LowByteValue(w);
    HighByteValue(l); LowByteValue(l);
  }

  lemma HighByteValue(v: nat)
    requires v < 0x10000
    ensures HighByte(v) as int == v / 256
  {
    ByteConversion(v / 256);
  }

  lemma LowByteValue(v: nat)
    requires v < 0x10000
    ensures LowByte(v, 0xff) as int == v % 256
    ensures LowByte(v, 0xf8) as int == v % 256 / 8 * 8
  {
    ByteConversion(v % 256);
    MaskClearsLowBits((v % 256) as bv8);
  }

  /** A 16-bit value read back from its two header bytes. */
  function Word(high: bv8, low: bv8): nat {
    high as nat * 256 + low as nat
  }

  /** What the controller reads from a header: the region (x, y, height, width). */
  function HeaderRegion(header: seq<bv8>): (nat, nat, nat, nat)
    requires |header| == 8
  {
    (Word(header[0], header[1]), Word(header[2], header[3]),
     Word(header[6], header[7]), Word(header[4], header[5]))
  }

  /** The header keeps y and the height exactly and drops the low three bits of x and
      of the width; so a byte-aligned region reaches the controller unchanged. */
  lemma HeaderRegionRoundTrip(x: nat, y: nat, l: nat, w: nat)
    requires x < 0x10000 && y < 0x10000 && l < 0x10000 && w < 0x10000
    ensures HeaderRegion(RegionHeader(x, y, l, w)) == (x / 8 * 8, y, l, w / 8 * 8)
    ensures x % 8 == 0 && w % 8 == 0 ==> HeaderRegion(RegionHeader(x, y, l, w)) == (x, y, l, w)
  {
    var hd := RegionHeader(x, y, l, w);
    RegionHeaderBytes(x, y, l, w);
    assert Word(hd[0], hd[1]) == x / 8 * 8 by { WordOfHeader(x); }
    assert Word(hd[2], hd[3]) == y by { WordOfHeader(y); }
    assert Word(hd[4], hd[5]) == w / 8 * 8 by { WordOfHeader(w); }
    assert Word(hd[6], hd[7]) == l by { WordOfHeader(l); }
  }

  lemma WordOfHeader(v: nat)
    ensures v / 256 * 256 + v % 256 / 8 * 8 == v / 8 * 8 && v / 256 * 256 + v % 256 == v
  {
    var a, r := v / 256, v % 256;
    assert v == a * 256 + r;
    assert v == (32 * a + r / 8) * 8 + r % 8;
    DivModUnique(v, 32 * a + r / 8, r % 8, 8);
  }

  /** A waveform table: the five coefficient sequences the controller takes. */
  datatype Lut = Lut(vcom: seq<bv8>, ww: seq<bv8>, bw: seq<bv8>, wb: seq<bv8>, bb: seq<bv8>)

  /** Loading a table: each register-select command followed by that sequence's bytes. */
  function LutEvents(lut: Lut): seq<Event> {
    [Command(LutForVcom)] + DataEvents(lut.vcom) +
    [Command(LutWhiteToWhite)] + DataEvents(lut.ww) +
    [Command(LutBlackToWhite)] + DataEvents(lut.bw) +
    [Command(LutWhiteToBlack)] + DataEvents(lut.wb) +
    [Command(LutBlackToBlack)] + DataEvents(lut.bb)
  }

  /** wait_until_idle: one status command, then the busy-line poll. */
  function WaitIdleEvents(): seq<Event> {
    [Command(GetStatus), BusyWait]
  }

  /** The vendor's power-up sequence of init(), up to and including POWER_ON. */
  function PowerUpEvents(): seq<Event> {
    [
      Command(PowerSetting), Data(0x03), Data(0x00), Data(0x2b), Data(0x2b), Data(0x09),
      Command(BoosterSoftStart), Data(0x07), Data(0x07), Data(0x17),
      Command(PowerOptimization), Data(0x60), Data(0xA5),
      Command(PowerOptimization), Data(0x89), Data(0xA5),
      Command(PowerOptimization), Data(0x90), Data(0x00),
      Command(PowerOptimization), Data(0x93), Data(0x2A),
      Command(PowerOptimization), Data(0xA0), Data(0xA5),
      Command(PowerOptimization), Data(0xA1), Data(0x00),
      Command(PowerOptimization), Data(0x73), Data(0x41),
      Command(PartialDisplayRefresh), Data(0x00),
      Command(PowerOn)
    ]
  }

  /** The panel, clock and VCM settings of init(), sent once the panel is powered. */
  function PanelSetupEvents(): seq<Event> {
    [
      Command(PanelSetting), Data(0xAF),
      Command(PllControl), Data(0x3A),
      Command(VcmDcSettingRegister), Data(0x12)
    ]
  }

  /** The whole of init(): reset, power up, wait, configure, load the normal table. */
  function InitEvents(normal: Lut): seq<Event> {
    [ResetPulse] + PowerUpEvents() + WaitIdleEvents() + PanelSetupEvents() + LutEvents(normal)
  }

  /** sleep(): the deep-sleep command and its check code. */
  function SleepEvents(): seq<Event> {
    [Command(DeepSleep), Data(DeepSleepCheckCode)]
  }
}
