# rpi_epd2in7 driver engine, modelled in Dafny

This project models the driver engine of the Waveshare 2.7" e-paper HAT. The panel is
176 × 264 pixels at one bit per pixel. The model covers everything between a one-bit
image and the bytes sent to the panel controller:

- **Alignment arithmetic** (`Geometry`): `_nearest_mult_of_8` rounds a coordinate down or
  up to a multiple of 8.
- **Frame-buffer codec** (`FrameBuffer`): pixels are packed most significant bit first
  and row-major, one bit each; a set bit is a white pixel. The packing is the source's
  nested loop over an array, proved against a specification function `Encode`.
  `GetFrameBuffer` adds the source's check that the image is exactly the panel size.
- **Wire framing** (`Protocol`): every byte goes out tagged as a command or as data.
  The transport is a trace of `Command(b)`, `Data(b)`, `ResetPulse` and `BusyWait`
  events, to which the driver's methods only ever append. This module holds the
  controller's command codes, the eight-byte region header of partial transfers,
  the waveform-table (LUT) upload and the fixed init/sleep sequences.
- **Images** (`Images`): an image is a grid of pixel values, where 0 is black and
  anything else is white. Cropping is modelled, and so is the imaging library's
  `difference(a, b).getbbox()`. The latter is given as a definition (`BoundingBox`),
  with lemmas proving it is the smallest rectangle that contains every differing
  pixel (`BoundingBoxIsSmallest`), and absent exactly when the images are identical.
- **Driver** (`Driver`): the `EPD` class holds the trace, the cached last frame, the
  partial-refresh counter and the "initialized" flag. Its methods are `init`,
  `set_lut`, `display_frame`, `display_partial_frame`, `smart_update` and `sleep`. Each
  method's postcondition states the exact event stream it appends and the new state of
  each field. The pure rectangle-and-waveform computation of `smart_update` is the
  function `PartialRegion`.
- **Scenario** (`Scenario`): a client of the driver with a partial-refresh limit of 2.
  It shows the burn-in policy: after a full refresh, two partial refreshes are allowed,
  then a full refresh is forced. Repeating an identical image sends nothing.

The waveform tables `LUT` and `QuickLUT` live in `rpi_epd2in7/lut.py`, which is not part
of this model. They are given to the `EPD` constructor as two `Lut` values. The constructor
takes the source's defaults for `partial_refresh_limit` (32) and `fast_refresh` (true).

Line 103 of `rpi_epd2in7/epd.py` has a stray closing parenthesis. The model takes the
evidently intended signature `(partial_refresh_limit=32, fast_refresh=True,
orientation=PORTRAIT)`, without the orientation (see below).

## Model

| member | source | states |
|---|---|---|
| `Geometry.NearestMultOf8` | rpi_epd2in7/epd.py:94-99 | the result is a multiple of 8; rounding up gives r with n ≤ r < n+8, rounding down gives r with r ≤ n < r+8 (Python's floor division, also for negative n) |
| `Geometry.RoundDownIsLargest` | rpi_epd2in7/epd.py:98-99 | every multiple of 8 that is at most n is at most the rounded-down value, so that value is the largest such multiple |
| `Geometry.RoundUpIsSmallest` | rpi_epd2in7/epd.py:96-97 | every multiple of 8 that is at least n is at least the rounded-up value, so that value is the smallest such multiple |
| `Geometry.MultipleIsFixed` | rpi_epd2in7/epd.py:94-99 | a multiple of 8 is left unchanged by both roundings |
| `Geometry.RoundingIdempotent` | rpi_epd2in7/epd.py:94-99 | rounding twice, in the same direction, equals rounding once |
| `Geometry.AlignedSpanCovers` | rpi_epd2in7/epd.py:396-398 | rounding the left edge down and then the width up still covers the span [x0, x1), and widens it by less than 15 |
| `Geometry.AlignedSpanEnd` | rpi_epd2in7/epd.py:396-398 | the rounded span ends exactly where rounding its right edge up would |
| `Geometry.FrameBytesValue` | rpi_epd2in7/epd.py:46-47 | the panel width is a multiple of 8, and a full frame is 5808 bytes holding exactly 176 × 264 bits |
| `Images.Crop` | rpi_epd2in7/epd.py:340 | the crop has the box's size, and pixel (x, y) of the crop is pixel (left+x, upper+y) of the image |
| `Images.AllWhite` | rpi_epd2in7/epd.py:409 | the definition of `0 not in image.getdata()`: no pixel of the image is 0 (black) |
| `Images.CropAllWhite` | rpi_epd2in7/epd.py:409 | `0 not in crop.getdata()` holds exactly when the image has no black pixel inside the box |
| `Images.BoundingBox` | rpi_epd2in7/epd.py:389-390 | the definition of `difference(a, b).getbbox()`: `None` when no row differs; otherwise (first differing column, first differing row, one past the last differing column, one past the last differing row). Its meaning is proved by the four lemmas below |
| `Images.BoundingBoxNoneIffIdentical` | rpi_epd2in7/epd.py:389-391 | the bounding box of the difference is absent if and only if the two images are equal |
| `Images.BoundingBoxCovers` | rpi_epd2in7/epd.py:389-390 | a present bounding box is a non-empty half-open rectangle inside the images, containing every pixel where the images differ |
| `Images.BoundingBoxIsTight` | rpi_epd2in7/epd.py:389-390 | each of the box's four edge lines (first and last row, first and last column) contains a differing pixel, so no smaller rectangle covers the change |
| `Images.BoundingBoxIsSmallest` | rpi_epd2in7/epd.py:389-390 | any half-open rectangle [l, r) × [t, bt) that contains every differing pixel contains the bounding box: l ≤ left, right ≤ r, t ≤ top and bottom ≤ bt |
| `FrameBuffer.Encode` | rpi_epd2in7/epd.py:269 | the buffer for a w × h region has exactly w·h/8 bytes |
| `FrameBuffer.EncodeByteBits` | rpi_epd2in7/epd.py:274-275 | bit j (mask 0x80 >> j) of byte k is set if and only if pixel number 8k+j, counted row-major, is white |
| `FrameBuffer.EncodeBit` | rpi_epd2in7/epd.py:272-275 | for w a multiple of 8, byte (x + y·w)/8 is in range, and its bit 0x80 >> (x % 8) is set if and only if pixel (x, y) is non-zero |
| `FrameBuffer.EncodeBitsBelongToPixels` | rpi_epd2in7/epd.py:269-275 | every bit of every byte is the bit of one pixel (x, y) of the region with 8k+j = x + y·w, so no bit other than those of white pixels is set |
| `FrameBuffer.Decode` | rpi_epd2in7/epd.py:269-275 | reading a buffer back gives a well-formed w × h image, with 255 where the pixel's bit is set and 0 where it is clear |
| `FrameBuffer.DecodeEncode` | rpi_epd2in7/epd.py:267-276 | decoding the encoding of a one-bit (0/255) image with byte-aligned width gives the image back, so the buffer loses nothing |
| `FrameBuffer.PackPixel` | rpi_epd2in7/epd.py:274-275 | one step of the packing loop, in the source's index arithmetic: the index is in range, and OR-ing the mask of a white pixel extends the packed prefix by that pixel |
| `FrameBuffer.PackedAllIsEncode` | rpi_epd2in7/epd.py:271-276 | once every pixel of the h rows is packed, the buffer is the encoding |
| `FrameBuffer.GetFrameBufferForSize` | rpi_epd2in7/epd.py:267-276 | the nested loop, starting from w·h/8 zero bytes and OR-ing in the mask of each white pixel, returns exactly the encoding |
| `FrameBuffer.GetFrameBuffer` | rpi_epd2in7/epd.py:256-265 | a dimension error if and only if the image is not 176 × 264; otherwise the encoding with height 264 and width 176, which is 5808 bytes |
| `Protocol.DataEvents` | rpi_epd2in7/epd.py:137-139 | one data event per byte, in order |
| `Protocol.WaitIdleEvents` | rpi_epd2in7/epd.py:215-218 | the definition of wait_until_idle's stream: the status command 0x71, then one abstract busy wait |
| `Protocol.PowerUpEvents` | rpi_epd2in7/epd.py:157-197 | the definition of init's vendor power-up sequence: power setting, booster soft start, the seven power-optimization pairs, PARTIAL_DISPLAY_REFRESH 0x00 and POWER_ON, with the source's data bytes |
| `Protocol.PanelSetupEvents` | rpi_epd2in7/epd.py:200-205 | the definition of init's panel settings: 0x00 + 0xAF, 0x30 + 0x3A, 0x82 + 0x12 |
| `Protocol.LutEvents` | rpi_epd2in7/epd.py:236-254 | the definition of the table upload: 0x20 followed by the vcom bytes, then 0x21 + ww, 0x22 + bw, 0x23 + wb and 0x24 + bb, each byte as one data event |
| `Protocol.InitEvents` | rpi_epd2in7/epd.py:156-207 | the definition of init's stream after the interface set-up: the reset, the vendor power-up sequence, the wait for idle, the panel/PLL/VCM settings and the normal table |
| `Protocol.SleepEvents` | rpi_epd2in7/epd.py:416-418 | the definition of sleep's stream: DEEP_SLEEP 0x07, then its check code 0xA5 as data |
| `Protocol.RegionHeader` | rpi_epd2in7/epd.py:300-308 | the header is exactly eight bytes |
| `Protocol.RegionHeaderBytes` | rpi_epd2in7/epd.py:300-308 | the header bytes are, as numbers, x>>8, x&0xf8, y>>8, y&0xff, w>>8, w&0xf8, l>>8, l&0xff: the width before the height, and the low bytes of x and w with their three low bits cleared |
| `Protocol.HeaderRegionRoundTrip` | rpi_epd2in7/epd.py:300-308 | reading the header back as big-endian words gives (x rounded down to 8, y, l, w rounded down to 8); a byte-aligned region reads back unchanged |
| `Driver.PartialRegion` | rpi_epd2in7/epd.py:396-409 | for a bounding box inside the panel: x % 8 == 0, w % 8 == 0, x ≤ left, right ≤ x+w ≤ 176, y == top, h == bottom − top (so both clamps never fire); fast holds if and only if fast refresh is enabled and the old frame has no black pixel inside the unrounded box (the new image is not consulted) |
| `Driver.PartialRegionCoversChange` | rpi_epd2in7/epd.py:389-410 | the rectangle smart_update passes on lies inside the panel, covers every changed pixel, and is already aligned, so display_partial_frame's own rounding leaves it as it is |
| `Driver.StageOpening` | rpi_epd2in7/epd.py:333-336 | the definition of a partial stage's opening: the stage command, then the eight-byte region header with l = h |
| `Driver.CroppedFrame` | rpi_epd2in7/epd.py:340-341 | the definition of `_get_frame_buffer_for_size(image.crop((x, y, x+w, y+h)), h, w)` as a value: the encoding of the crop at height h and width w |
| `Driver.PartialTransferEvents` | rpi_epd2in7/epd.py:339-362 | the definition of what follows the first header: the old frame's region bytes, 0x15 + header, the new image's region bytes, 0x16 + header, then the wait for idle |
| `Driver.FrameTransferEvents` | rpi_epd2in7/epd.py:285-296 | the definition of a full frame transfer: 0x10 + 5808 data bytes 0xFF, 0x13 + the buffer's bytes, 0x12, then the wait for idle |
| `Driver.GetCroppedFrameBuffer` | rpi_epd2in7/epd.py:340-341 | `_get_frame_buffer_for_size(image.crop(...), h, w)`: the buffer is the encoding of the in-panel crop of the region with corner (x, y), height h and width w |
| `Driver.PartialHeaderIsRegion` | rpi_epd2in7/epd.py:330-336 | after display_partial_frame rounds x down and w up, its header reads back as exactly the rounded region |
| `Driver.EPD.constructor` | rpi_epd2in7/epd.py:103-120 | the options are stored; nothing is sent, no frame is cached, the counter is 0 and the panel is not initialized |
| `Driver.EPD.ForcesFullRefresh` | rpi_epd2in7/epd.py:380 | the definition of smart_update's test: nothing has been displayed yet, or the counter equals the limit (an `==` test, as in the source) |
| `Driver.EPD.SendCommand` | rpi_epd2in7/epd.py:133-135 | appends exactly one command event |
| `Driver.EPD.SendData` | rpi_epd2in7/epd.py:137-139 | appends exactly one data event |
| `Driver.EPD.SendDataBytes` | rpi_epd2in7/epd.py:237-238 | the `for byte in …: send_data(byte)` loop appends the bytes as data events, in order |
| `Driver.EPD.SendRepeated` | rpi_epd2in7/epd.py:287-288 | the loop appends `count` data events, each carrying the given byte |
| `Driver.EPD.Reset` | rpi_epd2in7/epd.py:220-225 | appends one reset pulse |
| `Driver.EPD.WaitUntilIdle` | rpi_epd2in7/epd.py:211-218 | appends the status command 0x71 and then the busy wait |
| `Driver.EPD.SendRegister` | rpi_epd2in7/epd.py:240-254 | the `send_command(code)` followed by `for byte in table: send_data(byte)` pattern: appends the command and then the bytes as data events, in order |
| `Driver.EPD.FullRefreshEvents` | rpi_epd2in7/epd.py:280-296 | the definition of display_frame's stream for a panel-sized image: init when not yet performed, the normal table, then the frame transfer of the image's encoding |
| `Driver.EPD.FullRefreshed` | rpi_epd2in7/epd.py:278-298 | the definition of display_frame's effect: the panel is initialized; for a panel-sized image, success, the full-refresh stream, the image cached and the counter 0; otherwise (lines 261-264) a dimension error after only init and the table, with cache and counter unchanged |
| `Driver.EPD.PartialRefreshEvents` | rpi_epd2in7/epd.py:321-364 | the definition of display_partial_frame's stream: x rounded down and w up, the quick table if fast, 0x14 + header, the partial transfer, and the normal table again if fast |
| `Driver.EPD.PartialRefreshed` | rpi_epd2in7/epd.py:310-365 | the definition of display_partial_frame's effect: with a cached frame, success, the partial-refresh stream, the new image cached and the counter up by 1; with none (line 340), a missing-frame failure after the quick table and the first stage's opening, with cache and counter unchanged |
| `Driver.EPD.SetLut` | rpi_epd2in7/epd.py:227-254 | appends 0x20 + vcom bytes, 0x21 + ww, 0x22 + bw, 0x23 + wb, 0x24 + bb, from the quick table when `fast` is set and from the normal one otherwise |
| `Driver.EPD.Init` | rpi_epd2in7/epd.py:141-209 | appends the reset, the vendor power-up sequence, the wait, the panel settings and the normal table; sets the initialized flag and touches neither the cache nor the counter |
| `Driver.EPD.PrepareFullRefresh` | rpi_epd2in7/epd.py:280-283 | runs init only when it was not yet performed, then loads the normal table |
| `Driver.EPD.SendFrameTransfer` | rpi_epd2in7/epd.py:285-296 | appends 0x10, then 5808 × data 0xFF, then 0x13, then the buffer's bytes in index order, then 0x12 and the wait |
| `Driver.EPD.DisplayFrame` | rpi_epd2in7/epd.py:278-298 | for a panel-sized image: appends (init if needed) + normal table + frame transfer of the image's encoding, caches the image and resets the counter to 0. For any other size: sends only the init and the table, then fails with a dimension error, leaving the cache and the counter unchanged |
| `Driver.EPD.SendPartialFrameDimensions` | rpi_epd2in7/epd.py:300-308 | appends the eight header bytes as data events |
| `Driver.EPD.SendStageOpening` | rpi_epd2in7/epd.py:333-336 | appends a stage command followed by the region header |
| `Driver.EPD.EnterQuickWaveform` | rpi_epd2in7/epd.py:321-323 | loads the quick table when `fast` is set, and otherwise sends nothing |
| `Driver.EPD.LeaveQuickWaveform` | rpi_epd2in7/epd.py:363-364 | restores the normal table when `fast` is set, and otherwise sends nothing |
| `Driver.EPD.SendPartialTransfer` | rpi_epd2in7/epd.py:339-362 | appends the old frame's region bytes, then 0x15 + header + the new image's region bytes, then 0x16 + header and the wait |
| `Driver.EPD.DisplayPartialFrame` | rpi_epd2in7/epd.py:310-365 | rounds x down and w up before any region byte. Appends (quick table if fast) + 0x14 + header + old region + 0x15 + header + new region + 0x16 + header + wait + (normal table if fast), caches the whole new image and adds exactly 1 to the counter. With no cached frame, it fails after the first header, and the cache and the counter are unchanged |
| `Driver.EPD.SmartUpdate` | rpi_epd2in7/epd.py:367-410 | a full refresh exactly when nothing is cached or the counter equals the limit. Otherwise an identical image sends nothing and changes nothing, and a changed image gets a partial refresh of `PartialRegion` of the bounding box. The outcome, the new cache and the new counter are stated outright, and with limit ≥ 0 the counter never passes the limit |
| `Driver.EPD.Sleep` | rpi_epd2in7/epd.py:412-418 | appends the deep-sleep command and its 0xA5 check code; the initialized flag is left as it is |
| `Scenario.BurnInPolicy` | rpi_epd2in7/epd.py:380-410 | with limit 2, the counters after a full refresh of a, an update to b ≠ a, an update to c ≠ b and an update to any d are 0, 1, 2, 0, so the last update is a full refresh whatever d is; repeating b in between sends nothing |

## Left out

- GPIO and SPI transport (`digital_write`, `digital_read`, `spidev`, lines 122-139) and the interface set-up in `init` (lines 144-152): hardware I/O. `send_command` and `send_data` are trace appends; `time.sleep` delays are no-ops.
- `wait_until_idle`'s busy-poll loop (lines 216-218): it depends on the BUSY pin, so the model records one status command followed by one abstract `BusyWait` event. The extra 0x71 commands the poll sends, and its termination, are not modelled.
- `reset` (lines 220-225): only pin toggles and delays, recorded as one `ResetPulse` event.
- The landscape orientation (`rotate`, line 258) and `convert('1')` (line 260): imaging-library internals. Images are taken as already one-bit grids in portrait orientation, and the orientation option is not part of the constructor.
- `crop`'s padding of boxes that leave the image (lines 340, 353, 409): the model requires crops to lie inside the image, so `DisplayPartialFrame` requires the rounded region to fit the panel and the image to be panel-sized. `smart_update` only gives it such regions (`Driver.PartialRegionCoversChange`).
- Driver.EPD.SmartUpdate: on the partial path it requires the new image to be panel-sized, because images are modelled as 176 × 264 grids. What the source does with another size (`ImageChops.difference` computed over the overlap of the two images, a padded crop, and an odd-sized image cached as the last frame) is not modelled.
- The contents of the waveform tables: `rpi_epd2in7/lut.py` is not part of this model, so `LUT` and `QuickLUT` are constructor parameters.
- The vendor init register values (lines 157-205): included as a fixed event sequence, with no meaning attached.
- Values above 255 on the wire: all bytes in the model are `bv8`. Within the modelled domain every value the source sends fits in a byte, and what spidev does with a larger one is not modelled.
- The counter bound of `Driver.EPD.SmartUpdate` is stated for a limit ≥ 0 and a counter at most the limit. The source tests the limit with `==`, so with a negative limit a full refresh is never forced again; the model keeps that behaviour.
- Python's mutable public attributes (`fast_refresh`, `partial_refresh_limit`): here they are fixed at construction. `partialRefreshCount` and `trace` are fields a client may assign, as `_partial_refresh_count` may be in Python; the contracts describe only changes made through the driver's methods.
- `_last_frame = image.copy()` runs before the new region is cropped (line 352). In the model nothing can fail between the two, so the cache is updated after the transfer; the resulting state is the same.
