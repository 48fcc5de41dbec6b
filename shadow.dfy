/** The shadow of the digit/row registers (`status`): eight bytes per device,
    byte `8*addr + row` mirroring register `row + 1` of device `addr`, kept
    because the MAX7219/MAX7221 cannot be read back. */
module Shadow {
  import opened Bits
  import opened Framing
  import opened Chain

  /** Size of `status`: eight rows for each of at most eight devices. */
  const SHADOW_SIZE: nat := 64

  /** The shadow byte of row `row` of device `addr`. */
  function RowByte(shadow: seq<bv8>, addr: nat, row: nat): bv8
    requires row < 8 && 8 * addr + row < |shadow|
  {
    shadow[8 * addr + row]
  }

  /** The register address of row (or digit) `row`: `OP_DIGIT0 + row`. */
  function RowOpcode(row: nat): (op: bv8)
    requires row < 8
    ensures OP_DIGIT0 <= op <= OP_DIGIT7
  {
    (row + 1) as bv8
  }

  /** The digit/row register of row `row` of device `d`, as the frames sent
      so far have left it. */
  function DigitRegister(frames: seq<seq<bv8>>, d: nat, row: nat): bv8
    requires row < 8
  {
    RegisterValue(frames, d, RowOpcode(row))
  }

  /** The shadow agrees with every digit/row register of the `n` devices, as
      written by `frames`. */
  ghost predicate Mirrors(n: nat, frames: seq<seq<bv8>>, shadow: seq<bv8>)
  {
    |shadow| == SHADOW_SIZE && n <= MAX_DEVICES &&
    forall d, r :: 0 <= d < n && 0 <= r < 8 ==> DigitRegister(frames, d, r) == RowByte(shadow, d, r)
  }

  /** The shadow the constructor leaves: every row of every device 0. */
  function Blank(): (s: seq<bv8>)
    ensures |s| == SHADOW_SIZE && forall j :: 0 <= j < |s| ==> s[j] == 0
  {
    seq(SHADOW_SIZE, _ => 0)
  }

  /** Writing a byte to a row of the shadow and sending it to that row's
      register keeps the two in agreement. */
  lemma MirrorsAfterRowWrite(n: nat, frames: seq<seq<bv8>>, shadow: seq<bv8>, addr: nat, row: nat, x: bv8)
    requires Mirrors(n, frames, shadow) && addr < n && row < 8
    ensures Mirrors(n, frames + [Frame(n, addr, RowOpcode(row), x)], shadow[8 * addr + row := x])
  {
    var frames', shadow' := frames + [Frame(n, addr, RowOpcode(row), x)], shadow[8 * addr + row := x];
    forall d, r | 0 <= d < n && 0 <= r < 8
      ensures DigitRegister(frames', d, r) == RowByte(shadow', d, r)
    {
      LastWriteAfterFrame(frames, n, addr, RowOpcode(row), x, d, RowOpcode(r));
      assert DigitRegister(frames, d, r) == RowByte(shadow, d, r);
    }
  }

  /** A write to a control register (decode mode, intensity, scan limit,
      shutdown, display test) leaves the digit/row registers as they were. */
  lemma MirrorsAfterControlWrite(n: nat, frames: seq<seq<bv8>>, shadow: seq<bv8>, addr: nat, opcode: bv8, x: bv8)
    requires Mirrors(n, frames, shadow) && addr < n && opcode > OP_DIGIT7
    ensures Mirrors(n, frames + [Frame(n, addr, opcode, x)], shadow)
  {
    var frames' := frames + [Frame(n, addr, opcode, x)];
    forall d, r | 0 <= d < n && 0 <= r < 8
      ensures DigitRegister(frames', d, r) == RowByte(shadow, d, r)
    {
      LastWriteAfterFrame(frames, n, addr, opcode, x, d, RowOpcode(r));
      assert DigitRegister(frames, d, r) == RowByte(shadow, d, r);
    }
  }

  /** The shadow once `clearDisplay(addr)` has zeroed rows `0 .. k-1` of
      device `addr`: those bytes are 0, every other byte is as it was. */
  function ClearedRows(shadow: seq<bv8>, addr: nat, k: nat): (s: seq<bv8>)
    ensures |s| == |shadow|
  {
    seq(|shadow|, j requires 0 <= j < |shadow| => if 8 * addr <= j < 8 * addr + k then 0 else shadow[j])
  }

  /** Zeroing one more row of device `addr`. */
  lemma ClearedRowsStep(shadow: seq<bv8>, addr: nat, k: nat)
    requires 8 * addr + k < |shadow|
    ensures ClearedRows(shadow, addr, k + 1) == ClearedRows(shadow, addr, k)[8 * addr + k := 0]
  {
  }

  /** Clearing a device of an all-zero shadow leaves it all zero. */
  lemma ClearedRowsOfZeros(addr: nat)
    ensures ClearedRows(Blank(), addr, 8) == Blank()
  {
  }

  /** The shadow once `setColumn(addr, col, value)` has done rows `0 .. k-1`
      of device `addr`, one `setLed` per row. */
  function ColumnRows(shadow: seq<bv8>, addr: nat, col: nat, value: bv8, k: nat): (s: seq<bv8>)
    requires |shadow| == SHADOW_SIZE && addr < MAX_DEVICES && col < 8 && k <= 8
    ensures |s| == SHADOW_SIZE
  {
    if k == 0 then shadow
    else
      var s := ColumnRows(shadow, addr, col, value, k - 1);
      s[8 * addr + k - 1 := WithLed(s[8 * addr + k - 1], col, Bit(value, 7 - (k - 1)))]
  }

  /** One more row of `setColumn`: a `setLed` of that row's bit. */
  lemma ColumnRowsStep(shadow: seq<bv8>, addr: nat, col: nat, value: bv8, k: nat)
    requires |shadow| == SHADOW_SIZE && addr < MAX_DEVICES && col < 8 && k < 8
    ensures ColumnRows(shadow, addr, col, value, k + 1) ==
      ColumnRows(shadow, addr, col, value, k)[8 * addr + k :=
        WithLed(ColumnRows(shadow, addr, col, value, k)[8 * addr + k], col, Bit(value, 7 - k))]
  {
  }

  /** After rows `0 .. k-1`: in each of them the bit of column `col` is bit
      `7 - r` of `value`; every other bit, every later row and every other
      device is as it was. */
  lemma {:induction false} ColumnRowsBits(shadow: seq<bv8>, addr: nat, col: nat, value: bv8, k: nat)
    requires |shadow| == SHADOW_SIZE && addr < MAX_DEVICES && col < 8 && k <= 8
    ensures forall r :: 0 <= r < k ==>
      Bit(RowByte(ColumnRows(shadow, addr, col, value, k), addr, r), 7 - col) == Bit(value, 7 - r)
    ensures forall r, b :: 0 <= r < 8 && 0 <= b < 8 && b != 7 - col ==>
      Bit(RowByte(ColumnRows(shadow, addr, col, value, k), addr, r), b) == Bit(RowByte(shadow, addr, r), b)
    ensures forall r :: k <= r < 8 ==>
      RowByte(ColumnRows(shadow, addr, col, value, k), addr, r) == RowByte(shadow, addr, r)
    ensures forall j :: 0 <= j < SHADOW_SIZE && !(8 * addr <= j < 8 * addr + 8) ==>
      ColumnRows(shadow, addr, col, value, k)[j] == shadow[j]
  {
    if k > 0 {
      ColumnRowsBits(shadow, addr, col, value, k - 1);
      var s := ColumnRows(shadow, addr, col, value, k - 1);
      var s' := ColumnRows(shadow, addr, col, value, k);
      WithLedBits(RowByte(s, addr, k - 1), col, Bit(value, 7 - (k - 1)));
      forall r | 0 <= r < 8 ensures RowByte(s', addr, r) ==
        if r == k - 1 then WithLed(RowByte(s, addr, r), col, Bit(value, 7 - r)) else RowByte(s, addr, r)
      {
      }
    }
  }

  /** The frames that send rows `0 .. k-1` of device `addr` from `shadow`
      to the device's digit/row registers, row 0 first. */
  function RowFrames(n: nat, addr: nat, shadow: seq<bv8>, k: nat): (frames: seq<seq<bv8>>)
    requires addr < n && k <= 8 && 8 * addr + 8 <= |shadow|
    ensures |frames| == k
  {
    if k == 0 then []
    else RowFrames(n, addr, shadow, k - 1) + [Frame(n, addr, RowOpcode(k - 1), shadow[8 * addr + k - 1])]
  }

  /** Sending rows `0 .. k-1` depends only on the shadow bytes of those rows. */
  lemma {:induction false} RowFramesOnlyReadsRows(n: nat, addr: nat, s: seq<bv8>, t: seq<bv8>, k: nat)
    requires addr < n && k <= 8 && 8 * addr + 8 <= |s| && 8 * addr + 8 <= |t|
    requires forall r :: 0 <= r < k ==> RowByte(s, addr, r) == RowByte(t, addr, r)
    ensures RowFrames(n, addr, s, k) == RowFrames(n, addr, t, k)
  {
    if k > 0 {
      assert RowByte(s, addr, k - 1) == RowByte(t, addr, k - 1);
      RowFramesOnlyReadsRows(n, addr, s, t, k - 1);
    }
  }

  /** Writing row `row` of the shadow and sending it extends a trace that
      ends with the refresh of rows `0 .. row-1` to one that ends with the
      refresh of rows `0 .. row`. */
  lemma RefreshStep(n: nat, addr: nat, before: seq<seq<bv8>>, prev: seq<bv8>, row: nat, x: bv8)
    requires addr < n && 8 * addr + 8 <= |prev| && row < 8
    ensures before + RowFrames(n, addr, prev[8 * addr + row := x], row + 1) ==
      (before + RowFrames(n, addr, prev, row)) + [Frame(n, addr, RowOpcode(row), x)]
  {
    RowFramesOnlyReadsRows(n, addr, prev[8 * addr + row := x], prev, row);
  }
}
