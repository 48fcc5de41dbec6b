/** The `LedControl` class: a daisy chain of up to eight MAX7219/MAX7221
    devices driven over a three-wire bus. Bus output is recorded as a trace
    of frames (`sent`) instead of being clocked onto pins. */
module Driver {
  import opened Bits
  import opened Framing
  import opened Chain
  import opened Shadow

  /** The intended chain length for a requested `numDevices`: at most the
      eight devices that `status` and `spidata` have room for. */
  function ClampDevices(numDevices: uint8): (n: uint8)
  {
    if numDevices > 8 then 8 else numDevices
  }

  /** Every device index below the clamped count, and every row, lands
      inside the 64-byte shadow and the 16-byte transfer buffer; counts up
      to eight are kept as requested. */
  lemma ClampedIndicesInRange(numDevices: uint8, addr: nat, row: nat)
    requires addr < ClampDevices(numDevices) && row < 8
    ensures 8 * addr + row < SHADOW_SIZE && 2 * addr + 1 < 16
    ensures numDevices <= 8 ==> ClampDevices(numDevices) == numDevices
  {
  }

  /** The device count as the constructor computes it: the clamped value is
      overwritten by the requested count straight away. */
  function AsWrittenDeviceCount(numDevices: uint8): (n: uint8)
  {
    var clamped := ClampDevices(numDevices);
    numDevices
  }

  /** With nine devices requested the as-written count stays nine, and row 0
      of device 8, which every operation accepts, lies past the end of
      `status`. */
  lemma AsWrittenCountOverrunsShadow()
    ensures AsWrittenDeviceCount(9) == 9
    ensures exists addr: nat :: addr < AsWrittenDeviceCount(9) && 8 * addr >= SHADOW_SIZE
  {
    assert 8 < AsWrittenDeviceCount(9) && 8 * 8 >= SHADOW_SIZE;
  }

  /** Row writes of zero to registers 1 to 8, as `clearDisplay` sends them. */
  function ClearWords(): (words: seq<Word>)
    ensures |words| == 8
  {
    seq(8, r requires 0 <= r < 8 => Word(RowOpcode(r), 0))
  }

  /** What the constructor sends each device: display test off, scan limit
      7, decode mode off, the eight rows cleared, then shutdown. */
  function InitWords(): (words: seq<Word>)
    ensures |words| == 12
  {
    [Word(OP_DISPLAYTEST, 0), Word(OP_SCANLIMIT, 7), Word(OP_DECODEMODE, 0)]
    + ClearWords() + [Word(OP_SHUTDOWN, 0)]
  }

  /** The start-up words as the frames the constructor's calls send. */
  lemma InitFrames(n: nat, d: nat)
    requires d < n
    ensures Frames(n, d, InitWords()) ==
      [Frame(n, d, OP_DISPLAYTEST, 0), Frame(n, d, OP_SCANLIMIT, 7), Frame(n, d, OP_DECODEMODE, 0)]
      + Frames(n, d, ClearWords()) + [Frame(n, d, OP_SHUTDOWN, 0)]
  {
    var head := [Word(OP_DISPLAYTEST, 0), Word(OP_SCANLIMIT, 7), Word(OP_DECODEMODE, 0)];
    FramesAppend(n, d, head + ClearWords(), [Word(OP_SHUTDOWN, 0)]);
    FramesAppend(n, d, head, ClearWords());
  }

  /** The frames of sending the run `words` to devices `0 .. k-1`, one
      device after the other: the constructor's start-up loop once `k`
      devices are done, with `words` the start-up words. */
  function Broadcast(n: nat, words: seq<Word>, k: nat): seq<seq<bv8>>
    requires k <= n
  {
    if k == 0 then [] else Broadcast(n, words, k - 1) + Frames(n, k - 1, words)
  }

  /** The calls of one start-up pass, one after the other, send the
      start-up words to device `d`. */
  lemma InitStep(n: nat, d: nat, limit: uint8, s0: seq<seq<bv8>>, s1: seq<seq<bv8>>, s2: seq<seq<bv8>>,
                 s3: seq<seq<bv8>>, s4: seq<seq<bv8>>, s5: seq<seq<bv8>>)
    requires d < n && limit == 7
    requires s1 == s0 + [Frame(n, d, OP_DISPLAYTEST, 0)] && s2 == s1 + [Frame(n, d, OP_SCANLIMIT, limit as bv8)]
    requires s3 == s2 + [Frame(n, d, OP_DECODEMODE, 0)] && s4 == s3 + Frames(n, d, ClearWords())
    requires s5 == s4 + [Frame(n, d, OP_SHUTDOWN, 0)]
    ensures s5 == s0 + Frames(n, d, InitWords())
  {
    InitFrames(n, d);
  }

  /** The last word of a run writing register `reg` decides it. */
  lemma {:induction false} LastInAt(words: seq<Word>, reg: bv8, j: nat)
    requires j < |words| && words[j].opcode == reg
    requires forall i :: j < i < |words| ==> words[i].opcode != reg
    ensures LastIn(words, reg) == Some(words[j].data)
    decreases |words|
  {
    if j < |words| - 1 {
      LastInAt(words[..|words| - 1], reg, j);
    }
  }

  /** The registers the start-up words leave behind. */
  lemma InitWordsSettings(r: nat)
    requires r < 8
    ensures LastIn(InitWords(), OP_DISPLAYTEST) == Some(0)
    ensures LastIn(InitWords(), OP_SCANLIMIT) == Some(7)
    ensures LastIn(InitWords(), OP_DECODEMODE) == Some(0)
    ensures LastIn(InitWords(), OP_SHUTDOWN) == Some(0)
    ensures LastIn(InitWords(), RowOpcode(r)) == Some(0)
  {
    var w := InitWords();
    LastInAt(w, OP_DISPLAYTEST, 0);
    LastInAt(w, OP_SCANLIMIT, 1);
    LastInAt(w, OP_DECODEMODE, 2);
    LastInAt(w, OP_SHUTDOWN, 11);
    LastInAt(w, RowOpcode(r), 3 + r);
  }

  /** Devices `k` and above have been sent nothing by a run sent to
      devices `0 .. k-1`. */
  lemma {:induction false} BroadcastMissesLater(n: nat, words: seq<Word>, k: nat, d: nat, reg: bv8)
    requires k <= d < n && reg != OP_NOOP
    ensures LastWrite(Broadcast(n, words, k), d, reg) == None
  {
    if k > 0 {
      BroadcastMissesLater(n, words, k - 1, d, reg);
      LastWriteAfterFrames(Broadcast(n, words, k), Broadcast(n, words, k - 1), n, k - 1, words, d, reg);
    }
  }

  /** Each device below `k` holds what the run leaves once the run has been
      sent to devices `0 .. k-1`. */
  lemma {:induction false} BroadcastReachesEarlier(n: nat, words: seq<Word>, k: nat, d: nat, reg: bv8)
    requires d < k <= n && reg != OP_NOOP
    ensures LastWrite(Broadcast(n, words, k), d, reg) == LastIn(words, reg)
  {
    LastWriteAfterFrames(Broadcast(n, words, k), Broadcast(n, words, k - 1), n, k - 1, words, d, reg);
    if d == k - 1 {
      BroadcastMissesLater(n, words, k - 1, d, reg);
    } else {
      BroadcastReachesEarlier(n, words, k - 1, d, reg);
    }
  }

  /** After a run has been sent to devices `0 .. k-1`, each of those
      devices holds what the run leaves, and the others have been sent
      nothing. */
  lemma BroadcastRegisters(n: nat, words: seq<Word>, k: nat, d: nat, reg: bv8)
    requires k <= n && d < n && reg != OP_NOOP
    ensures LastWrite(Broadcast(n, words, k), d, reg) == if d < k then LastIn(words, reg) else None
  {
    if d < k {
      BroadcastReachesEarlier(n, words, k, d, reg);
    } else {
      BroadcastMissesLater(n, words, k, d, reg);
    }
  }

  /** After construction every device of the chain has display test off,
      scan limit 7, decode mode off, all eight rows 0, and is shut down. */
  lemma StartupState(n: nat, d: nat, r: nat)
    requires d < n && r < 8
    ensures LastWrite(Broadcast(n, InitWords(), n), d, OP_DISPLAYTEST) == Some(0)
    ensures LastWrite(Broadcast(n, InitWords(), n), d, OP_SCANLIMIT) == Some(7)
    ensures LastWrite(Broadcast(n, InitWords(), n), d, OP_DECODEMODE) == Some(0)
    ensures LastWrite(Broadcast(n, InitWords(), n), d, OP_SHUTDOWN) == Some(0)
    ensures LastWrite(Broadcast(n, InitWords(), n), d, RowOpcode(r)) == Some(0)
  {
    InitWordsSettings(r);
    BroadcastRegisters(n, InitWords(), n, d, OP_DISPLAYTEST);
    BroadcastRegisters(n, InitWords(), n, d, OP_SCANLIMIT);
    BroadcastRegisters(n, InitWords(), n, d, OP_DECODEMODE);
    BroadcastRegisters(n, InitWords(), n, d, OP_SHUTDOWN);
    BroadcastRegisters(n, InitWords(), n, d, RowOpcode(r));
  }

  /** The start-up frames leave every digit/row register of the chain at 0,
      which is what the zeroed shadow holds. */
  lemma StartupMirrors(n: nat, k: nat)
    requires k <= n <= MAX_DEVICES
    ensures Mirrors(n, Broadcast(n, InitWords(), k), Blank())
  {
    var zeros := Blank();
    forall d, r | 0 <= d < n && 0 <= r < 8
      ensures DigitRegister(Broadcast(n, InitWords(), k), d, r) == RowByte(zeros, d, r)
    {
      InitWordsSettings(r);
      BroadcastRegisters(n, InitWords(), k, d, RowOpcode(r));
    }
  }

  class LedControl {
    /** Number of devices in the chain. */
    const maxDevices: uint8
    /** Shadow of every digit/row register, byte `8*addr + row`. */
    const status: array<bv8>
    /** Transfer buffer, two bytes per device. */
    const spidata: array<bv8>
    /** The 128 segment bytes of the glyph table `charTable`. */
    const charTable: seq<bv8>
    /** Every frame put on the bus so far, oldest first, each as its bytes
        in transmission order. */
    var sent: seq<seq<bv8>>

    /** The arrays have their declared sizes. */
    ghost predicate Valid()
    {
      status.Length == SHADOW_SIZE && spidata.Length == 2 * MAX_DEVICES && status != spidata
      && maxDevices <= MAX_DEVICES && |charTable| == 128
    }

    /** `Valid`, and the shadow agrees with every digit/row register of the
        chain. */
    ghost predicate Synced()
      reads this, status
    {
      Valid() && Mirrors(maxDevices, sent, status[..])
    }

    /** Sets up the chain: zeroes the shadow and sends every device its
        start-up sequence. */
    constructor (numDevices: uint8, table: seq<bv8>)
      requires |table| == 128
      ensures Synced() && fresh(status) && fresh(spidata)
      ensures maxDevices == ClampDevices(numDevices) && charTable == table
      ensures status[..] == Blank()
      ensures sent == Broadcast(maxDevices, InitWords(), maxDevices)
    {
      maxDevices := ClampDevices(numDevices);
      charTable := table;
      status := new bv8[SHADOW_SIZE];
      spidata := new bv8[2 * MAX_DEVICES];
      sent := [];
      new;
      var i := 0;
      while i < SHADOW_SIZE
        invariant 0 <= i <= SHADOW_SIZE
        invariant status[..i] == Blank()[..i]
        invariant sent == []
      {
        status[i] := 0;
        i := i + 1;
      }
      assert status[..] == status[..SHADOW_SIZE];
      var d: uint8 := 0;
      while d < maxDevices
        invariant d <= maxDevices && Valid()
        invariant status[..] == Blank()
        invariant sent == Broadcast(maxDevices, InitWords(), d)
      {
        StartDevice(d);
        d := d + 1;
      }
      StartupMirrors(maxDevices, maxDevices);
    }

    /** One pass of the constructor's start-up loop: display test off, scan
        limit 7, decode mode off, display cleared, shut down. */
    method StartDevice(d: uint8)
      requires Valid() && d < maxDevices
      requires status[..] == Blank() && sent == Broadcast(maxDevices, InitWords(), d)
      modifies this, spidata, status
      ensures Valid()
      ensures status[..] == Blank() && sent == Broadcast(maxDevices, InitWords(), d + 1)
    {
      StartupMirrors(maxDevices, d);
      ghost var s0 := sent;
      SpiTransfer(d, OP_DISPLAYTEST, 0);
      MirrorsAfterControlWrite(maxDevices, s0, status[..], d, OP_DISPLAYTEST, 0);
      ghost var s1 := sent;
      var limit: uint8 := 7;
      SetScanLimit(d, limit);
      ghost var s2 := sent;
      SpiTransfer(d, OP_DECODEMODE, 0);
      MirrorsAfterControlWrite(maxDevices, s2, status[..], d, OP_DECODEMODE, 0);
      ghost var s3 := sent;
      ClearDisplay(d);
      ghost var s4 := sent;
      Shutdown(d, true);
      InitStep(maxDevices, d, limit, s0, s1, s2, s3, s4, sent);
      ClearedRowsOfZeros(d);
    }

    /** `getDeviceCount`: the number of devices in the chain. */
    method GetDeviceCount() returns (n: uint8)
      requires Valid()
      ensures n == maxDevices && n <= MAX_DEVICES
    {
      n := maxDevices;
    }

    /** `spiTransfer`: sends register write `(opcode, data)` to device
        `addr`. Every other device of the chain is sent the no-op opcode.
        Lowering and raising the select line around the bytes is what makes
        the devices latch; it is not modelled beyond the frame boundary. */
    method SpiTransfer(addr: uint8, opcode: bv8, data: bv8)
      requires Valid() && addr < maxDevices
      modifies this, spidata
      ensures Valid()
      ensures spidata[..2 * maxDevices] == Buffer(maxDevices, addr, opcode, data)
      ensures sent == old(sent) + [Frame(maxDevices, addr, opcode, data)]
    {
      var offset := addr * 2;
      var maxbytes := maxDevices * 2;
      var i := 0;
      while i < maxbytes
        invariant 0 <= i <= maxbytes
        invariant forall j :: 0 <= j < i ==> spidata[j] == 0
        invariant sent == old(sent)
      {
        spidata[i] := 0;
        i := i + 1;
      }
      spidata[offset + 1] := opcode;
      spidata[offset] := data;
      ghost var buf := Buffer(maxDevices, addr, opcode, data);
      assert forall j :: 0 <= j < maxbytes ==> spidata[j] == buf[j];
      var wire: seq<bv8> := [];
      var k := maxbytes;
      while k > 0
        invariant 0 <= k <= maxbytes
        invariant |wire| == maxbytes - k
        invariant forall j :: 0 <= j < |wire| ==> wire[j] == buf[maxbytes - 1 - j]
      {
        wire := wire + [spidata[k - 1]];
        k := k - 1;
      }
      assert spidata[..maxbytes] == buf;
      assert wire == Emit(buf);
      sent := sent + [wire];
    }

    /** `shutdown`: puts device `addr` into shutdown mode (`b`) or back into
        normal operation; the shutdown register takes 0 for shutdown and 1
        for normal operation. */
    method Shutdown(addr: uint8, b: bool)
      requires Synced()
      modifies this, spidata
      ensures Synced()
      ensures sent == if addr < maxDevices then old(sent) + [Frame(maxDevices, addr, OP_SHUTDOWN, if b then 0 else 1)]
                      else old(sent)
      ensures addr >= maxDevices ==> unchanged(spidata)
    {
      if addr >= maxDevices {
        return;
      }
      ghost var before := sent;
      if b {
        SpiTransfer(addr, OP_SHUTDOWN, 0);
      } else {
        SpiTransfer(addr, OP_SHUTDOWN, 1);
      }
      MirrorsAfterControlWrite(maxDevices, before, status[..], addr, OP_SHUTDOWN, if b then 0 else 1);
    }

    /** `setScanLimit`: sets how many digits/rows device `addr` scans; a
        limit above 7 is ignored. */
    method SetScanLimit(addr: uint8, limit: uint8)
      requires Synced()
      modifies this, spidata
      ensures Synced()
      ensures sent == if addr < maxDevices && limit < 8 then old(sent) + [Frame(maxDevices, addr, OP_SCANLIMIT, limit as bv8)]
                      else old(sent)
      ensures !(addr < maxDevices && limit < 8) ==> unchanged(spidata)
    {
      if addr >= maxDevices {
        return;
      }
      if 0 <= limit < 8 {
        ghost var before := sent;
        SpiTransfer(addr, OP_SCANLIMIT, limit as bv8);
        MirrorsAfterControlWrite(maxDevices, before, status[..], addr, OP_SCANLIMIT, limit as bv8);
      }
    }

    /** `setIntensity`: sets the brightness of device `addr`; a level above
        15 is ignored. */
    method SetIntensity(addr: uint8, intensity: uint8)
      requires Synced()
      modifies this, spidata
      ensures Synced()
      ensures sent == if addr < maxDevices && intensity < 16 then old(sent) + [Frame(maxDevices, addr, OP_INTENSITY, intensity as bv8)]
                      else old(sent)
      ensures !(addr < maxDevices && intensity < 16) ==> unchanged(spidata)
    {
      if addr >= maxDevices {
        return;
      }
      if 0 <= intensity < 16 {
        ghost var before := sent;
        SpiTransfer(addr, OP_INTENSITY, intensity as bv8);
        MirrorsAfterControlWrite(maxDevices, before, status[..], addr, OP_INTENSITY, intensity as bv8);
      }
    }

    /** `clearDisplay`: zeroes the eight shadow rows of device `addr` and
        sends each zero row to the device, row 0 first. */
    method ClearDisplay(addr: uint8)
      requires Synced()
      modifies this, spidata, status
      ensures Synced()
      ensures addr < maxDevices ==>
        status[..] == ClearedRows(old(status[..]), addr, 8)
        && sent == old(sent) + Frames(maxDevices, addr, ClearWords())
      ensures addr >= maxDevices ==> unchanged(status, spidata) && sent == old(sent)
    {
      if addr >= maxDevices {
        return;
      }
      var offset := addr * 8;
      var i := 0;
      while i < 8
        invariant 0 <= i <= 8 && Synced()
        invariant status[..] == ClearedRows(old(status[..]), addr, i)
        invariant sent == old(sent) + Frames(maxDevices, addr, ClearWords()[..i])
      {
        ghost var before, shadow := sent, status[..];
        status[offset + i] := 0;
        SpiTransfer(addr, (i + 1) as bv8, status[offset + i]);
        MirrorsAfterRowWrite(maxDevices, before, shadow, addr, i, 0);
        ClearedRowsStep(old(status[..]), addr, i);
        assert status[..] == shadow[offset + i := 0];
        FramesSnoc(old(sent), maxDevices, addr, ClearWords(), i);
        i := i + 1;
      }
      assert ClearWords()[..8] == ClearWords();
    }

    /** `setLed`: turns the LED at `row`, `column` of device `addr` on
        (`state`) or off, by a read-modify-write of its shadow row, and
        sends the new row to the device. */
    method SetLed(addr: uint8, row: uint8, column: uint8, state: bool)
      requires Synced()
      modifies this, spidata, status
      ensures Synced()
      ensures addr < maxDevices && row <= 7 && column <= 7 ==>
        status[..] == old(status[..])[8 * addr + row := WithLed(old(status[8 * addr + row]), column, state)]
        && sent == old(sent) + [Frame(maxDevices, addr, RowOpcode(row), status[8 * addr + row])]
      ensures !(addr < maxDevices && row <= 7 && column <= 7) ==>
        unchanged(status, spidata) && sent == old(sent)
    {
      if addr >= maxDevices {
        return;
      }
      if row > 7 || column > 7 {
        return;
      }
      ghost var before, shadow := sent, status[..];
      var offset := addr * 8;
      status[offset + row] := WithLed(status[offset + row], column, state);
      SpiTransfer(addr, (row + 1) as bv8, status[offset + row]);
      MirrorsAfterRowWrite(maxDevices, before, shadow, addr, row, status[offset + row]);
      assert status[..] == shadow[offset + row := status[offset + row]];
    }

    /** `setRow`: stores `value` as row `row` of device `addr` and sends it. */
    method SetRow(addr: uint8, row: uint8, value: bv8)
      requires Synced()
      modifies this, spidata, status
      ensures Synced()
      ensures addr < maxDevices && row <= 7 ==>
        status[..] == old(status[..])[8 * addr + row := value]
        && sent == old(sent) + [Frame(maxDevices, addr, RowOpcode(row), value)]
      ensures !(addr < maxDevices && row <= 7) ==> unchanged(status, spidata) && sent == old(sent)
    {
      if addr >= maxDevices {
        return;
      }
      if row > 7 {
        return;
      }
      ghost var before, shadow := sent, status[..];
      var offset := addr * 8;
      status[offset + row] := value;
      SpiTransfer(addr, (row + 1) as bv8, status[offset + row]);
      MirrorsAfterRowWrite(maxDevices, before, shadow, addr, row, value);
      assert status[..] == shadow[offset + row := value];
    }

    /** `setColumn`: sets column `col` of device `addr` from `value`, bit 7
        going to row 0, through one `setLed` per row (eight frames). */
    method SetColumn(addr: uint8, col: uint8, value: bv8)
      requires Synced()
      modifies this, spidata, status
      ensures Synced()
      ensures addr < maxDevices && col <= 7 ==>
        status[..] == ColumnRows(old(status[..]), addr, col, value, 8)
        && sent == old(sent) + RowFrames(maxDevices, addr, status[..], 8)
      ensures !(addr < maxDevices && col <= 7) ==> unchanged(status, spidata) && sent == old(sent)
    {
      if addr >= maxDevices {
        return;
      }
      if col > 7 {
        return;
      }
      var row: uint8 := 0;
      while row < 8
        invariant 0 <= row <= 8 && Synced()
        invariant status[..] == ColumnRows(old(status[..]), addr, col, value, row)
        invariant sent == old(sent) + RowFrames(maxDevices, addr, status[..], row)
      {
        ghost var prev := status[..];
        var val := RowBitOf(value, row);
        RowBitOfBit(value, row);
        SetLed(addr, row, col, val != 0);
        ColumnRowsStep(old(status[..]), addr, col, value, row);
        RefreshStep(maxDevices, addr, old(sent), prev, row, status[8 * addr + row]);
        assert status[..] == prev[8 * addr + row := status[8 * addr + row]];
        row := row + 1;
      }
    }

    /** `setDigit`: shows hexadecimal digit `value` (0 to 15) at position
        `digit` of device `addr`, with the decimal point if `dp`. */
    method SetDigit(addr: uint8, digit: uint8, value: uint8, dp: bool)
      requires Synced()
      modifies this, spidata, status
      ensures Synced()
      ensures addr < maxDevices && digit <= 7 && value <= 15 ==>
        status[..] == old(status[..])[8 * addr + digit := Glyph(charTable[value], dp)]
        && sent == old(sent) + [Frame(maxDevices, addr, RowOpcode(digit), Glyph(charTable[value], dp))]
      ensures !(addr < maxDevices && digit <= 7 && value <= 15) ==>
        unchanged(status, spidata) && sent == old(sent)
    {
      if addr >= maxDevices {
        return;
      }
      if digit > 7 || value > 15 {
        return;
      }
      ghost var before, shadow := sent, status[..];
      var offset := addr * 8;
      var v := Glyph(charTable[value], dp);
      status[offset + digit] := v;
      SpiTransfer(addr, (digit + 1) as bv8, v);
      MirrorsAfterRowWrite(maxDevices, before, shadow, addr, digit, v);
      assert status[..] == shadow[offset + digit := v];
    }

    /** `setChar`: shows the glyph of character `value` at position `digit`
        of device `addr`, with the decimal point if `dp`; characters above
        code 127 show as a space. */
    method SetChar(addr: uint8, digit: uint8, value: int8, dp: bool)
      requires Synced()
      modifies this, spidata, status
      ensures Synced()
      ensures addr < maxDevices && digit <= 7 ==>
        status[..] == old(status[..])[8 * addr + digit := Glyph(charTable[CharIndex(value)], dp)]
        && sent == old(sent) + [Frame(maxDevices, addr, RowOpcode(digit), Glyph(charTable[CharIndex(value)], dp))]
      ensures !(addr < maxDevices && digit <= 7) ==> unchanged(status, spidata) && sent == old(sent)
    {
      if addr >= maxDevices {
        return;
      }
      if digit > 7 {
        return;
      }
      ghost var before, shadow := sent, status[..];
      var offset := addr * 8;
      var index: uint8 := value % 256;
      if index > 127 {
        // no glyph beyond code 127: use the space character
        index := 32;
      }
      var v := Glyph(charTable[index], dp);
      status[offset + digit] := v;
      SpiTransfer(addr, (digit + 1) as bv8, v);
      MirrorsAfterRowWrite(maxDevices, before, shadow, addr, digit, v);
      assert status[..] == shadow[offset + digit := v];
    }
  }
}
