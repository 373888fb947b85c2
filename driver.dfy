/** The driver proper: the EPD object, which owns the transport (modelled as the
    trace of everything sent), the cache of the last displayed frame, the
    partial-refresh counter and the "initialized" flag, and which sequences full and
    partial refreshes and chooses between them. */
module Driver {
  import opened Geometry
  import opened Images
  import opened FrameBuffer
  import opened Protocol

  /** What a display call ends with: success, or one of the source's exceptions. */
  datatype Outcome =
    | Success
    | DimensionError      // ValueError: the image is not 176 x 264
    | MissingLastFrame    // AttributeError: a partial refresh with no frame displayed yet

  /** The refresh rectangle and waveform choice of a partial update. */
  datatype Region = Region(x: nat, y: nat, h: nat, w: nat, fast: bool)

  /** The bounding box lies inside the panel and is non-empty. */
  predicate BoxInPanel(box: Box) {
    box.left < box.right <= Width && box.top < box.bottom <= Height
  }

  /** The rectangle smart_update derives from the bounding box of the change: x rounded
      down and the width rounded up to multiples of 8, each clamped to the panel; y and
      the height as they are. Fast waveforms are chosen only if enabled and the OLD frame
      has no black pixel inside the bounding box; the new image is not looked at. */
  function PartialRegion(box: Box, last: Image, fastRefresh: bool): (r: Region)
    requires WellFormed(last) && PanelSized(last) && BoxInPanel(box)
    ensures r.x % 8 == 0 && r.w % 8 == 0
    ensures r.x <= box.left && box.right <= r.x + r.w <= Width
    ensures r.y == box.top && r.h == box.bottom - box.top && r.y + r.h <= Height
    ensures r.w == NearestMultOf8(box.right - r.x) && r.x + r.w == NearestMultOf8(box.right)
    ensures r.fast <==> (fastRefresh &&
              forall x, y :: box.left <= x < box.right && box.top <= y < box.bottom ==> Pixel(last, x, y) != 0)
  {
    var x := NearestMultOf8(box.left, false);
    var y := box.top;
    var w := NearestMultOf8(box.right - x);
    var w := if w > Width then Width else w;
    var h := box.bottom - y;
    var h := if h > Height then Height else h;
    var fast := AllWhite(Crop(last, box.left, box.top, box.right, box.bottom)) && fastRefresh;
    CropAllWhite(last, box.left, box.top, box.right, box.bottom);
    AlignedSpanEnd(box.left, box.right);
    Region(x, y, h, w, fast)
  }

  /** The rectangle smart_update refreshes covers every pixel that changed, and is
      already aligned, so display_partial_frame's own rounding leaves it as it is. */
  lemma PartialRegionCoversChange(last: Image, img: Image, fastRefresh: bool)
    requires Comparable(last, img) && PanelSized(last) && BoundingBox(last, img).Some?
    ensures BoxInPanel(BoundingBox(last, img).value)
    ensures var r := PartialRegion(BoundingBox(last, img).value, last, fastRefresh);
            NearestMultOf8(r.x, false) == r.x && NearestMultOf8(r.w) == r.w &&
            r.x + r.w <= Width && r.y + r.h <= Height &&
            forall x, y :: 0 <= x < Width && 0 <= y < Height && Differs(last, img, x, y) ==>
              r.x <= x < r.x + r.w && r.y <= y < r.y + r.h
  {
    BoundingBoxCovers(last, img);
    var r := PartialRegion(BoundingBox(last, img).value, last, fastRefresh);
    MultipleIsFixed(r.x, false);
    MultipleIsFixed(r.w, true);
  }

  /** The three stages of a full refresh: an all-white first stage, the frame buffer
      as second stage, and the refresh command followed by the wait for idle. */
  function FrameTransferEvents(buf: seq<bv8>): seq<Event> {
    [Command(DataStartTransmission1)] + DataEvents(seq(FrameBytes, _ => 0xFF)) +
    [Command(DataStartTransmission2)] + DataEvents(buf) +
    [Command(DisplayRefresh)] + WaitIdleEvents()
  }

  /** The opening of a partial-transfer stage: its command and the region header. */
  function StageOpening(code: bv8, x: nat, y: nat, h: nat, w: nat): seq<Event>
    requires x < 0x10000 && y < 0x10000 && h < 0x10000 && w < 0x10000
  {
    [Command(code)] + DataEvents(RegionHeader(x, y, h, w))
  }

  /** What display_partial_frame sends after opening its first stage. */
  function PartialTransferEvents(last: Image, img: Image, x: nat, y: nat, h: nat, w: nat): seq<Event>
    requires WellFormed(last) && PanelSized(last) && WellFormed(img) && PanelSized(img)
    requires x + w <= Width && y + h <= Height
  {
    DataEvents(CroppedFrame(last, x, y, h, w)) +
    StageOpening(PartialDataStartTransmission2, x, y, h, w) +
    DataEvents(CroppedFrame(img, x, y, h, w)) +
    StageOpening(PartialDisplayRefresh, x, y, h, w) + WaitIdleEvents()
  }

  /** The frame buffer of the region of `src` with top-left corner (x, y), height h and width w. */
  function CroppedFrame(src: Image, x: nat, y: nat, h: nat, w: nat): seq<bv8>
    requires WellFormed(src) && x + w <= src.width && y + h <= src.height
  {
    Encode(Crop(src, x, y, x + w, y + h), h, w)
  }

  /** The source's `_get_frame_buffer_for_size(image.crop(...), h, w)`. */
  method GetCroppedFrameBuffer(src: Image, x: nat, y: nat, h: nat, w: nat) returns (buf: seq<bv8>)
    requires WellFormed(src) && x + w <= src.width && y + h <= src.height && w % 8 == 0
    ensures buf == CroppedFrame(src, x, y, h, w)
  {
    var region := Crop(src, x, y, x + w, y + h);
    buf := GetFrameBufferForSize(region, h, w);
  }

  /** A region, after display_partial_frame's rounding, lies inside the panel. */
  predicate RegionFits(x: nat, y: nat, h: nat, w: nat) {
    NearestMultOf8(x, false) + NearestMultOf8(w) <= Width && y + h <= Height
  }

  /** The header of a partial refresh reads back, on the controller side, as exactly the
      rounded region: rounding x down and w up makes the header's masking lossless. */
  lemma PartialHeaderIsRegion(x: nat, y: nat, h: nat, w: nat)
    requires RegionFits(x, y, h, w)
    ensures var x8, w8 := NearestMultOf8(x, false), NearestMultOf8(w);
            HeaderRegion(RegionHeader(x8, y, h, w8)) == (x8, y, h, w8)
  {
    HeaderRegionRoundTrip(NearestMultOf8(x, false), y, h, NearestMultOf8(w));
  }

  class EPD {
    /** Construction options. */
    const partialRefreshLimit: int
    const fastRefresh: bool
    /** The normal and the quick waveform tables (the LUT and QuickLUT constants). */
    const normalLut: Lut
    const quickLut: Lut

    /** Everything sent to the panel so far. */
    var trace: seq<Event>
    var lastFrame: Option<Image>
    var partialRefreshCount: int
    var initPerformed: bool

    ghost predicate Valid()
      reads this
    {
      0 <= partialRefreshCount &&
      (lastFrame.Some? ==> WellFormed(lastFrame.value) && PanelSized(lastFrame.value) && initPerformed)
    }

    /** smart_update's test for a full refresh: nothing displayed yet, or the limit reached. */
    predicate ForcesFullRefresh()
      reads this
    {
      lastFrame.None? || partialRefreshCount == partialRefreshLimit
    }

    constructor(normalLut: Lut, quickLut: Lut, partialRefreshLimit: int := 32, fastRefresh: bool := true)
      ensures Valid()
      ensures this.normalLut == normalLut && this.quickLut == quickLut
      ensures this.partialRefreshLimit == partialRefreshLimit && this.fastRefresh == fastRefresh
      ensures trace == [] && lastFrame == None && partialRefreshCount == 0 && !initPerformed
    {
      this.normalLut := normalLut;
      this.quickLut := quickLut;
      this.partialRefreshLimit := partialRefreshLimit;
      this.fastRefresh := fastRefresh;
      trace := [];
      lastFrame := None;
      partialRefreshCount := 0;
      initPerformed := false;
    }

    method SendCommand(code: bv8)
      modifies this`trace
      ensures trace == old(trace) + [Command(code)]
    {
      trace := trace + [Command(code)];
    }

    method SendData(byte: bv8)
      modifies this`trace
      ensures trace == old(trace) + [Data(byte)]
    {
      trace := trace + [Data(byte)];
    }

    /** A `for byte in bytes: send_data(byte)` loop. */
    method SendDataBytes(bytes: seq<bv8>)
      modifies this`trace
      ensures trace == old(trace) + DataEvents(bytes)
    {
      for i := 0 to |bytes|
        invariant trace == old(trace) + DataEvents(bytes[..i])
      {
        assert bytes[..i + 1] == bytes[..i] + [bytes[i]];
        DataEventsAppend(bytes[..i], [bytes[i]]);
        SendData(bytes[i]);
      }
      assert bytes[..|bytes|] == bytes;
    }

    method Reset()
      modifies this`trace
      ensures trace == old(trace) + [ResetPulse]
    {
      trace := trace + [ResetPulse];
    }

    /** One status command, then the busy poll (which may send more status commands;
        their number depends on the hardware and is folded into BusyWait). */
    method WaitUntilIdle()
      modifies this`trace
      ensures trace == old(trace) + WaitIdleEvents()
    {
      SendCommand(GetStatus);
      trace := trace + [BusyWait];
    }

    /** A register select followed by its data bytes. */
    method SendRegister(code: bv8, bytes: seq<bv8>)
      modifies this`trace
      ensures trace == old(trace) + ([Command(code)] + DataEvents(bytes))
    {
      SendCommand(code);
      SendDataBytes(bytes);
    }

    method SetLut(fast: bool := false)
      modifies this`trace
      ensures trace == old(trace) + LutEvents(if fast then quickLut else normalLut)
    {
      var lut := if fast then quickLut else normalLut;
      SendCommand(LutForVcom);
      SendDataBytes(lut.vcom);
      ghost var sent := [Command(LutForVcom)] + DataEvents(lut.vcom);
      SendRegister(LutWhiteToWhite, lut.ww);
      TraceAppend(old(trace), sent, [Command(LutWhiteToWhite)] + DataEvents(lut.ww));
      sent := sent + ([Command(LutWhiteToWhite)] + DataEvents(lut.ww));
      SendRegister(LutBlackToWhite, lut.bw);
      TraceAppend(old(trace), sent, [Command(LutBlackToWhite)] + DataEvents(lut.bw));
      sent := sent + ([Command(LutBlackToWhite)] + DataEvents(lut.bw));
      SendRegister(LutWhiteToBlack, lut.wb);
      TraceAppend(old(trace), sent, [Command(LutWhiteToBlack)] + DataEvents(lut.wb));
      sent := sent + ([Command(LutWhiteToBlack)] + DataEvents(lut.wb));
      SendRegister(LutBlackToBlack, lut.bb);
      TraceAppend(old(trace), sent, [Command(LutBlackToBlack)] + DataEvents(lut.bb));
    }

    /** The hardware initialization sequence; it leaves the frame cache and the counter alone. */
    method Init()
      modifies this`trace, this`initPerformed
      ensures trace == old(trace) + InitEvents(normalLut)
      ensures initPerformed
    {
      Reset();
      trace := trace + PowerUpEvents();
      TraceAppend(old(trace), [ResetPulse], PowerUpEvents());
      WaitUntilIdle();
      TraceAppend(old(trace), [ResetPulse] + PowerUpEvents(), WaitIdleEvents());
      trace := trace + PanelSetupEvents();
      TraceAppend(old(trace), [ResetPulse] + PowerUpEvents() + WaitIdleEvents(), PanelSetupEvents());
      SetLut();
      TraceAppend(old(trace), [ResetPulse] + PowerUpEvents() + WaitIdleEvents() + PanelSetupEvents(), LutEvents(normalLut));
      initPerformed := true;
    }

    /** The transaction of a full refresh of `img`: init if needed, the normal table,
        then the frame transfer of its frame buffer. */
    function FullRefreshEvents(initialized: bool, img: Image): seq<Event>
      requires WellFormed(img) && PanelSized(img)
    {
      (if initialized then [] else InitEvents(normalLut)) + LutEvents(normalLut) +
      FrameTransferEvents(Encode(img, Height, Width))
    }

    /** The effect of display_frame(img) on a driver whose state was the given one. */
    ghost predicate FullRefreshed(trace0: seq<Event>, init0: bool, last0: Option<Image>, count0: int,
                                  img: Image, outcome: Outcome)
      reads this
      requires WellFormed(img)
    {
      initPerformed &&
      if PanelSized(img) then
        outcome == Success && trace == trace0 + FullRefreshEvents(init0, img) &&
        lastFrame == Some(img) && partialRefreshCount == 0
      else
        outcome == DimensionError && lastFrame == last0 && partialRefreshCount == count0 &&
        trace == trace0 + ((if init0 then [] else InitEvents(normalLut)) + LutEvents(normalLut))
    }

    method DisplayFrame(img: Image) returns (outcome: Outcome)
      requires Valid() && WellFormed(img)
      modifies this
      ensures Valid()
      ensures FullRefreshed(old(trace), old(initPerformed), old(lastFrame), old(partialRefreshCount), img, outcome)
    {
      PrepareFullRefresh();
      var frameBuffer := GetFrameBuffer(img);
      if frameBuffer.Err? {
        return DimensionError;
      }
      ghost var setup := (if old(initPerformed) then [] else InitEvents(normalLut)) + LutEvents(normalLut);
      SendFrameTransfer(frameBuffer.value);
      TraceAppend(old(trace), setup, FrameTransferEvents(frameBuffer.value));
      lastFrame := Some(img);
      partialRefreshCount := 0;
      outcome := Success;
    }

    /** The preamble of display_frame: init if not done yet, then the normal table. */
    method PrepareFullRefresh()
      modifies this`trace, this`initPerformed
      ensures initPerformed
      ensures trace == old(trace) + ((if old(initPerformed) then [] else InitEvents(normalLut)) + LutEvents(normalLut))
    {
      if !initPerformed {
        Init();
      }
      SetLut();
      TraceAppend(old(trace), if old(initPerformed) then [] else InitEvents(normalLut), LutEvents(normalLut));
    }

    /** The transfer part of display_frame: what its three stages send. */
    method SendFrameTransfer(buf: seq<bv8>)
      modifies this`trace
      ensures trace == old(trace) + FrameTransferEvents(buf)
    {
      SendCommand(DataStartTransmission1);
      SendRepeated(0xFF, FrameBytes);
      SendCommand(DataStartTransmission2);
      SendDataBytes(buf);
      SendCommand(DisplayRefresh);
      WaitUntilIdle();
    }

    /** A `for i in range(count): send_data(byte)` loop. */
    method SendRepeated(byte: bv8, count: nat)
      modifies this`trace
      ensures trace == old(trace) + DataEvents(seq(count, _ => byte))
    {
      for i := 0 to count
        invariant trace == old(trace) + DataEvents(seq(i, _ => byte))
      {
        assert seq(i + 1, _ => byte) == seq(i, _ => byte) + [byte];
        DataEventsAppend(seq(i, _ => byte), [byte]);
        SendData(byte);
      }
    }

    /** The eight data bytes of a region header, one send_data each. */
    method SendPartialFrameDimensions(x: nat, y: nat, l: nat, w: nat)
      requires x < 0x10000 && y < 0x10000 && l < 0x10000 && w < 0x10000
      modifies this`trace
      ensures trace == old(trace) + DataEvents(RegionHeader(x, y, l, w))
    {
      SendDataBytes(RegionHeader(x, y, l, w));
    }

    /** The transaction of a partial refresh of the region (x, y, h, w) once x is rounded
        down and w up: each stage opens with its command and the region header; the old
        frame's region goes first, then the new image's; the third stage refreshes. */
    function PartialRefreshEvents(last: Image, img: Image, x: nat, y: nat, h: nat, w: nat, fast: bool): seq<Event>
      requires WellFormed(last) && PanelSized(last) && WellFormed(img) && PanelSized(img)
      requires RegionFits(x, y, h, w)
    {
      var x8, w8 := NearestMultOf8(x, false), NearestMultOf8(w);
      (if fast then LutEvents(quickLut) else []) +
      StageOpening(PartialDataStartTransmission1, x8, y, h, w8) +
      PartialTransferEvents(last, img, x8, y, h, w8) +
      (if fast then LutEvents(normalLut) else [])
    }

    /** The effect of display_partial_frame(img, x, y, h, w, fast) from the given state:
        the whole new image becomes the cached frame and the counter goes up by one. */
    ghost predicate PartialRefreshed(trace0: seq<Event>, last0: Option<Image>, count0: int,
                                     img: Image, x: nat, y: nat, h: nat, w: nat, fast: bool, outcome: Outcome)
      reads this
      requires WellFormed(img) && PanelSized(img) && RegionFits(x, y, h, w)
      requires last0.Some? ==> WellFormed(last0.value) && PanelSized(last0.value)
    {
      if last0.Some? then
        outcome == Success && trace == trace0 + PartialRefreshEvents(last0.value, img, x, y, h, w, fast) &&
        lastFrame == Some(img) && partialRefreshCount == count0 + 1
      else
        var x8, w8 := NearestMultOf8(x, false), NearestMultOf8(w);
        outcome == MissingLastFrame && lastFrame == last0 && partialRefreshCount == count0 &&
        trace == trace0 + ((if fast then LutEvents(quickLut) else []) +
                           StageOpening(PartialDataStartTransmission1, x8, y, h, w8))
    }

    method DisplayPartialFrame(img: Image, x: nat, y: nat, h: nat, w: nat, fast: bool := false)
      returns (outcome: Outcome)
      requires Valid() && WellFormed(img) && PanelSized(img) && RegionFits(x, y, h, w)
      modifies this
      ensures Valid() && initPerformed == old(initPerformed)
      ensures PartialRefreshed(old(trace), old(lastFrame), old(partialRefreshCount), img, x, y, h, w, fast, outcome)
    {
      ghost var sent: seq<Event> := if fast then LutEvents(quickLut) else [];
      EnterQuickWaveform(fast);
      var x := NearestMultOf8(x, false);
      var w := NearestMultOf8(w);
      SendStageOpening(PartialDataStartTransmission1, x, y, h, w);
      TraceAppend(old(trace), sent, StageOpening(PartialDataStartTransmission1, x, y, h, w));
      sent := sent + StageOpening(PartialDataStartTransmission1, x, y, h, w);
      if lastFrame.None? {
        return MissingLastFrame;
      }
      SendPartialTransfer(lastFrame.value, img, x, y, h, w);
      TraceAppend(old(trace), sent, PartialTransferEvents(lastFrame.value, img, x, y, h, w));
      sent := sent + PartialTransferEvents(lastFrame.value, img, x, y, h, w);
      lastFrame := Some(img);
      LeaveQuickWaveform(fast);
      TraceAppend(old(trace), sent, if fast then LutEvents(normalLut) else []);
      partialRefreshCount := partialRefreshCount + 1;
      outcome := Success;
    }

    /** display_partial_frame's `if fast: set_lut(fast=True)`. */
    method EnterQuickWaveform(fast: bool)
      modifies this`trace
      ensures trace == old(trace) + (if fast then LutEvents(quickLut) else [])
    {
      if fast {
        SetLut(fast := true);
      }
    }

    /** display_partial_frame's closing `if fast: set_lut()`. */
    method LeaveQuickWaveform(fast: bool)
      modifies this`trace
      ensures trace == old(trace) + (if fast then LutEvents(normalLut) else [])
    {
      if fast {
        SetLut();
      }
    }

    /** The rest of display_partial_frame's three stages, once the first is opened: the
        old frame's region, the second stage with the new image's region, the third
        stage, and the wait for idle. */
    method SendPartialTransfer(last: Image, img: Image, x: nat, y: nat, h: nat, w: nat)
      requires WellFormed(last) && PanelSized(last) && WellFormed(img) && PanelSized(img)
      requires x % 8 == 0 && w % 8 == 0 && x + w <= Width && y + h <= Height
      modifies this`trace
      ensures trace == old(trace) + PartialTransferEvents(last, img, x, y, h, w)
    {
      var oldBuffer := GetCroppedFrameBuffer(last, x, y, h, w);
      SendDataBytes(oldBuffer);
      ghost var sent := DataEvents(oldBuffer);
      SendStageOpening(PartialDataStartTransmission2, x, y, h, w);
      TraceAppend(old(trace), sent, StageOpening(PartialDataStartTransmission2, x, y, h, w));
      sent := sent + StageOpening(PartialDataStartTransmission2, x, y, h, w);
      var newBuffer := GetCroppedFrameBuffer(img, x, y, h, w);
      SendDataBytes(newBuffer);
      TraceAppend(old(trace), sent, DataEvents(newBuffer));
      sent := sent + DataEvents(newBuffer);
      SendStageOpening(PartialDisplayRefresh, x, y, h, w);
      TraceAppend(old(trace), sent, StageOpening(PartialDisplayRefresh, x, y, h, w));
      sent := sent + StageOpening(PartialDisplayRefresh, x, y, h, w);
      WaitUntilIdle();
      TraceAppend(old(trace), sent, WaitIdleEvents());
    }

    /** The command opening a partial-transfer stage, then the region header. */
    method SendStageOpening(code: bv8, x: nat, y: nat, h: nat, w: nat)
      requires x < 0x10000 && y < 0x10000 && h < 0x10000 && w < 0x10000
      modifies this`trace
      ensures trace == old(trace) + StageOpening(code, x, y, h, w)
    {
      SendCommand(code);
      SendPartialFrameDimensions(x, y, h, w);
    }

    /** Displays `img`, choosing the refresh: a full refresh when nothing was displayed
        yet or the partial-refresh limit is reached; nothing at all when the image is
        unchanged; otherwise a partial refresh of the changed area. */
    method SmartUpdate(img: Image) returns (outcome: Outcome)
      requires Valid() && WellFormed(img)
      requires !ForcesFullRefresh() ==> PanelSized(img)
      modifies this
      ensures Valid()
      ensures outcome == (if old(ForcesFullRefresh()) && !PanelSized(img) then DimensionError else Success)
      ensures lastFrame == (if outcome == DimensionError then old(lastFrame) else Some(img))
      ensures partialRefreshCount ==
                if outcome == DimensionError then old(partialRefreshCount)
                else if old(ForcesFullRefresh()) then 0
                else if old(lastFrame) == Some(img) then old(partialRefreshCount)
                else old(partialRefreshCount) + 1
      ensures old(ForcesFullRefresh()) ==>
                FullRefreshed(old(trace), old(initPerformed), old(lastFrame), old(partialRefreshCount), img, outcome)
      ensures !old(ForcesFullRefresh()) ==>
                initPerformed == old(initPerformed) &&
                match BoundingBox(old(lastFrame).value, img)
                case None =>
                  outcome == Success && trace == old(trace) &&
                  lastFrame == old(lastFrame) && partialRefreshCount == old(partialRefreshCount)
                case Some(box) =>
                  BoxInPanel(box) &&
                  var r := PartialRegion(box, old(lastFrame).value, fastRefresh);
                  RegionFits(r.x, r.y, r.h, r.w) &&
                  PartialRefreshed(old(trace), old(lastFrame), old(partialRefreshCount),
                                   img, r.x, r.y, r.h, r.w, r.fast, outcome)
      ensures 0 <= partialRefreshLimit && old(partialRefreshCount) <= partialRefreshLimit ==>
                partialRefreshCount <= partialRefreshLimit
    {
      if lastFrame.None? || partialRefreshCount == partialRefreshLimit {
        outcome := DisplayFrame(img);
      } else {
        BoundingBoxNoneIffIdentical(lastFrame.value, img);
        var bbox := BoundingBox(lastFrame.value, img);
        if bbox.Some? {
          BoundingBoxCovers(lastFrame.value, img);
          var r := PartialRegion(bbox.value, lastFrame.value, fastRefresh);
          MultipleIsFixed(r.x, false);
          MultipleIsFixed(r.w, true);
          outcome := DisplayPartialFrame(img, r.x, r.y, r.h, r.w, r.fast);
        } else {
          outcome := Success;
        }
      }
    }

    /** Deep sleep. The source leaves `_init_performed` as it is, so a later display
        call does not re-initialize by itself: reset() and init() are the caller's job. */
    method Sleep()
      modifies this`trace
      ensures trace == old(trace) + SleepEvents()
    {
      SendCommand(DeepSleep);
      SendData(DeepSleepCheckCode);
    }
  }
}
