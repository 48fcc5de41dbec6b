# LedControl: a verified model of the MAX7219/MAX7221 daisy-chain driver

`LedControl` drives a chain of up to eight MAX7219/MAX7221 LED controllers
over a three-wire serial bus (data, clock, select). Each controller has
eight digit/row registers and a handful of control registers (decode mode,
intensity, scan limit, shutdown, display test). A write to a register of
one device is a *frame*: two bytes per device of the chain, in which every
device except the target is sent the no-op opcode 0. The controllers cannot
be read back, so the driver keeps a 64-byte shadow, `status`, holding eight
row bytes per device. It updates the shadow before every row write.

The model is in five modules:

- `Bits` (bits.dfy) holds the byte-level arithmetic of the driver:
  - the `uint8_t` and signed `char` widths;
  - the `setLed` read-modify-write with the mask `0x80 >> column`;
  - the bit `setColumn` extracts for each row;
  - the decimal-point glyph byte;
  - the `setChar` index conversion.
- `Framing` (framing.dfy) holds the register addresses and the transfer
  buffer `spiTransfer` fills. It gives the order in which the buffer is
  shifted out: the reverse of the buffer. It also gives a reference
  description of a frame, device by device from the far end of the chain.
- `Chain` (chain.dfy) says what each device receives.
  - The chain is a shift register of `2*n` bytes.
  - Device `d` latches positions `2d` (data) and `2d+1` (opcode) when the
    select line rises.
  - `LastWrite` gives, for a trace of frames, the last value each register
    of each device was sent.
- `Shadow` (shadow.dfy) holds the invariant `Mirrors`: every shadow byte
  equals the digit/row register it stands for. It also holds the
  specification functions of `clearDisplay` (`ClearedRows`) and
  `setColumn` (`ColumnRows`, `RowFrames`).
- `Driver` (driver.dfy) holds the class `LedControl`:
  - the arrays `status` (64 bytes) and `spidata` (16 bytes);
  - the device count and the glyph table;
  - a trace `sent` of the frames put on the bus, oldest first.

  Every public operation of the library keeps `Synced`, which is `Mirrors`
  between `sent` and `status`. The two exceptions are `SpiTransfer`, which
  writes any register including a digit/row one, and `StartDevice`, one
  pass of the constructor's loop, which works on the all-zero shadow.
  Each method states its new shadow and the frames it sends in terms of
  its arguments. The constructor's start-up sequence is
  `Broadcast(n, InitWords(), n)`, and `StartupState` proves which values it
  leaves in every register.

The code clamps the device count to 8 and then overwrites the clamped value
with the requested count. The model keeps the clamp; see "## Findings". A
requested count of 0 is accepted: the start-up loop (src/LedControl.cpp:68)
runs no pass and every address is rejected; the model does the same.

## Model

| member | source | states |
|---|---|---|
| Bits.WithLedBits | src/LedControl.cpp:141-149 | `setLed` gives bit `7 - column` of the row byte the value `state` and keeps the other seven bits |
| Bits.ColumnMaskBits | src/LedControl.cpp:142 | the mask `B10000000 >> column` has exactly one bit set, bit `7 - column` |
| Bits.MaskedBit | src/LedControl.cpp:143-148 | OR with a mask sets its bits; AND with its complement clears them; every other bit is kept |
| Bits.SetThenClearRestores | src/LedControl.cpp:141-149 | turning a clear LED on and then off gives back the original row byte |
| Bits.ClearThenSetRestores | src/LedControl.cpp:141-149 | turning a lit LED off and then on gives back the original row byte |
| Bits.OtherColumnKeepsLed | src/LedControl.cpp:141-149 | a later `setLed` on another column of the same row keeps the earlier LED's state |
| Bits.RowBitOfBit | src/LedControl.cpp:179-181 | the value `setColumn` passes to `setLed` for row `r` is 0 or 1, and nonzero exactly when bit `7 - r` of `value` is set |
| Bits.GlyphBits | src/LedControl.cpp:198-200 | the stored glyph has the decimal point when `dp` is set or the table byte has it, and the table byte's seven segments unchanged |
| Bits.CharIndex | src/LedControl.cpp:217-222 | the `setChar` table index is always below 128; it is the character code for codes 0..127 and 32 (space) for codes above 127 |
| Framing.Emit | src/LedControl.cpp:246-247 | the bytes go out from the highest buffer index down: wire byte `k` is buffer byte `len - 1 - k` |
| Framing.FrameIsDevicePairs | src/LedControl.cpp:234-247 | the frame is, device by device from the last of the chain down to device 0, an opcode byte then a data byte; the pair is `(opcode, data)` for the target and a no-op for the others |
| Framing.ThreeDeviceFrame | src/LedControl.cpp:234-247 | with three devices and target 1, the buffer is `[0,0,data,opcode,0,0]` and the wire bytes are `[0,0,opcode,data,0,0]` |
| Chain.ShiftAllAt | src/LedControl.cpp:244-249 | after bytes are clocked into the chain, position `j` holds the `j`-th most recent byte, or an older byte once all new bytes have passed it |
| Chain.ChainHoldsBuffer | src/LedControl.cpp:237-249 | clocking a whole frame into the chain leaves exactly the transfer buffer in it, whatever the chain held before |
| Chain.ReceivedIgnoresPrior | src/LedControl.cpp:244-249 | what a device latches from a full frame does not depend on the chain's earlier contents |
| Chain.FrameAddressesOnlyTarget | src/LedControl.cpp:234-249 | device `addr` latches `(opcode, data)`; every other device of the chain latches a no-op |
| Chain.LastWriteAfterFrames | src/LedControl.cpp:231-250 | a run of transfers to device `addr` changes only the registers of `addr` it writes, each to the run's last value for it |
| Chain.LastWriteAfterFrame | src/LedControl.cpp:231-250 | one transfer changes exactly the addressed register of the addressed device |
| Shadow.MirrorsAfterRowWrite | src/LedControl.cpp:163-164 | storing a byte in a shadow row and sending it to that row's register keeps shadow and registers in agreement |
| Shadow.MirrorsAfterControlWrite | src/LedControl.cpp:91-94 | a write to a control register leaves every digit/row register, hence the agreement, unchanged |
| Shadow.Blank | src/LedControl.cpp:65-66 | the zeroed shadow has 64 bytes, all 0 |
| Shadow.ClearedRowsStep | src/LedControl.cpp:123-126 | each pass of the `clearDisplay` loop zeroes one more row of the device |
| Shadow.ClearedRowsOfZeros | src/LedControl.cpp:75 | clearing a device of the all-zero shadow leaves it all zero |
| Shadow.ColumnRowsStep | src/LedControl.cpp:177-182 | each pass of the `setColumn` loop is a `setLed` of that row's bit |
| Shadow.ColumnRowsBits | src/LedControl.cpp:177-182 | after `setColumn`, bit `7 - col` of row `r` is bit `7 - r` of `value`; every other bit, row and device byte is unchanged |
| Shadow.RowFramesOnlyReadsRows | src/LedControl.cpp:177-182 | the frames of rows `0 .. k-1` depend only on those rows' shadow bytes |
| Shadow.RefreshStep | src/LedControl.cpp:177-182 | one more row written and sent extends the trace of rows `0 .. row-1` to rows `0 .. row` |
| Driver.ClampedIndicesInRange | src/LedControl.cpp:53-54 | with the clamp in force, every accepted device and row index lies inside `status` and `spidata`, and counts up to 8 are kept |
| Driver.AsWrittenCountOverrunsShadow | src/LedControl.cpp:51-56 | as written, nine requested devices stay nine, and device 8's rows lie past the end of `status` |
| Driver.InitFrames | src/LedControl.cpp:70-77 | the start-up words, sent to a device, are the frames of the constructor's five calls |
| Driver.InitStep | src/LedControl.cpp:70-77 | the five start-up calls one after another send the start-up words to the device |
| Driver.InitWordsSettings | src/LedControl.cpp:70-77 | the start-up words leave display test 0, scan limit 7, decode mode 0, shutdown 0 and every row 0 |
| Driver.BroadcastMissesLater | src/LedControl.cpp:68-78 | after the loop has started devices `0 .. k-1`, devices `k` and above have been sent nothing |
| Driver.BroadcastReachesEarlier | src/LedControl.cpp:68-78 | after the loop has started devices `0 .. k-1`, each of them holds what the start-up words leave |
| Driver.BroadcastRegisters | src/LedControl.cpp:68-78 | both cases together: register contents after `k` passes of the start-up loop |
| Driver.StartupState | src/LedControl.cpp:65-78 | after construction every device has display test off, scan limit 7, decode mode off, shutdown on and all rows 0 |
| Driver.StartupMirrors | src/LedControl.cpp:65-78 | the zeroed shadow agrees with the registers after any number of start-up passes |
| Driver.LedControl.constructor | src/LedControl.cpp:45-79 | count clamped to 8, shadow all zero, one start-up sequence per device in device order, shadow in agreement with the chain |
| Driver.LedControl.StartDevice | src/LedControl.cpp:69-78 | one pass of the start-up loop appends that device's start-up frames and keeps the shadow zero |
| Driver.LedControl.GetDeviceCount | src/LedControl.cpp:81-84 | returns the device count, at most 8 |
| Driver.LedControl.SpiTransfer | src/LedControl.cpp:231-250 | `spidata[0 .. 2n]` is zero except data at `2*addr` and opcode at `2*addr+1`; exactly one frame, that buffer reversed, is appended |
| Driver.LedControl.Shutdown | src/LedControl.cpp:86-95 | a valid address sends shutdown data 0 for `b` and 1 otherwise; an invalid one sends nothing; the shadow is untouched and stays in agreement |
| Driver.LedControl.SetScanLimit | src/LedControl.cpp:97-104 | sends the limit only for a valid address and a limit below 8; otherwise nothing |
| Driver.LedControl.SetIntensity | src/LedControl.cpp:106-113 | sends the level only for a valid address and a level below 16; otherwise nothing |
| Driver.LedControl.ClearDisplay | src/LedControl.cpp:115-128 | zeroes exactly the eight rows of the device and sends rows 1..8 with data 0 in order; an invalid address changes nothing |
| Driver.LedControl.SetLed | src/LedControl.cpp:130-151 | changes only the addressed row byte, to the row with the LED's bit set or cleared, and sends that byte to register `row + 1`; out-of-range arguments change nothing |
| Driver.LedControl.SetRow | src/LedControl.cpp:153-165 | stores `value` in exactly the addressed row and sends it to register `row + 1`; out-of-range arguments change nothing |
| Driver.LedControl.SetColumn | src/LedControl.cpp:167-183 | the shadow becomes `ColumnRows` of the old shadow, and exactly eight frames, rows 0 to 7 of the new shadow, are sent; out-of-range arguments change nothing |
| Driver.LedControl.SetDigit | src/LedControl.cpp:186-203 | stores and sends the glyph of `value` (with the decimal point if `dp`) at the digit; a digit above 7 or a value above 15 changes nothing |
| Driver.LedControl.SetChar | src/LedControl.cpp:205-228 | stores and sends the glyph of the character (space for codes above 127) at the digit; out-of-range arguments change nothing |

## Left out

- Pin set-up and bus signalling (`pinMode`, `digitalWrite`, `shiftOut`, the pin fields `SPI_MOSI`, `SPI_CLK`, `SPI_CS`): they are replaced by the frame trace `sent`. Bytes are the unit of the model. Within a byte `shiftOut` sends the most significant bit first, and this is not modelled bit by bit.
- The constructor's three pin parameters are absent for the same reason.
- The contents of the glyph table `charTable` and the program-memory read `pgm_read_byte_near`: the table is defined outside `src/LedControl.cpp`. It is a 128-byte constructor parameter, and results are stated in terms of its entries.
- The `INLCUDE_DIGITS` compile-time switch: `setDigit` and `setChar` are always present.
- The `volatile` qualifiers of `spiTransfer`'s parameters, and timing: they have no logical effect on what is sent.
- What a device does with a latched write beyond storing it (scanning, display). A register never written by the driver is taken to hold 0 (`RegisterValue`); only written registers are relied on.
- Driver.LedControl.Shutdown, SetScanLimit, SetIntensity, ClearDisplay, SetLed, SetRow, SetColumn, SetDigit, SetChar: on the path that sends frames, the ensures do not restate the new `spidata` contents. `SpiTransfer` states them for each frame.
- Driver.LedControl.constructor: the requested count above 8 is clamped, as the code evidently intends; the code as written does not clamp (see "## Findings").

## Findings

| source | as written | input that shows it | evidently intended | confidence | as-written member | corrected member |
|---|---|---|---|---|---|---|
| src/LedControl.cpp:51-56 | the count is clamped to 8, then overwritten with the requested `numDevices` | `numDevices = 9`: the count stays 9, so `setRow(8, 0, v)` passes the address check and writes `status[64]`, past the 64-byte shadow; `spiTransfer` writes `spidata[16]` and `spidata[17]` | the count is `min(numDevices, 8)` | not executed | Driver.AsWrittenCountOverrunsShadow | Driver.ClampedIndicesInRange |
