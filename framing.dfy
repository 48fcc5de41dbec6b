/** The framing of one register write for a daisy chain of MAX7219/MAX7221
    devices: the transfer buffer `spiTransfer` fills and the order in which it
    shifts the buffer out. */
module Framing {

  // Register addresses (opcodes) of the MAX7219/MAX7221.
  const OP_NOOP: bv8 := 0
  const OP_DIGIT0: bv8 := 1
  const OP_DIGIT7: bv8 := 8
  const OP_DECODEMODE: bv8 := 9
  const OP_INTENSITY: bv8 := 10
  const OP_SCANLIMIT: bv8 := 11
  const OP_SHUTDOWN: bv8 := 12
  const OP_DISPLAYTEST: bv8 := 15

  /** The most devices the shadow (8 bytes each) and the transfer buffer
      (2 bytes each) have room for. */
  const MAX_DEVICES: nat := 8

  /** One register write as a device sees it: a register address and the
      byte to store there. */
  datatype Word = Word(opcode: bv8, data: bv8)

  /** `spidata[0 .. 2*n]` once `spiTransfer(addr, opcode, data)` has filled
      it: the no-op byte 0 everywhere, except the data byte at `2*addr` and
      the opcode at `2*addr + 1`. */
  function Buffer(n: nat, addr: nat, opcode: bv8, data: bv8): (buf: seq<bv8>)
    requires addr < n
    ensures |buf| == 2 * n
  {
    seq(2 * n, i => if i == 2 * addr then data else if i == 2 * addr + 1 then opcode else OP_NOOP)
  }

  /** The bytes of `buf` in the order `spiTransfer` shifts them out: from the
      highest index down to index 0. (Within each byte the bits go out most
      significant first; the model works at byte granularity.) */
  function Emit(buf: seq<bv8>): (wire: seq<bv8>)
    ensures |wire| == |buf|
    ensures forall k :: 0 <= k < |buf| ==> wire[k] == buf[|buf| - 1 - k]
  {
    if buf == [] then [] else Emit(buf[1..]) + [buf[0]]
  }

  /** The frame `spiTransfer(addr, opcode, data)` puts on the bus, in
      transmission order. */
  function Frame(n: nat, addr: nat, opcode: bv8, data: bv8): (wire: seq<bv8>)
    requires addr < n
    ensures |wire| == 2 * n
  {
    Emit(Buffer(n, addr, opcode, data))
  }

  /** Reference description of a frame: device by device, from the last
      device of the chain down to device 0, an opcode byte then a data byte;
      the pair is `(opcode, data)` for device `addr` and a no-op for the rest. */
  function DevicePairs(n: nat, addr: nat, opcode: bv8, data: bv8): (wire: seq<bv8>)
    ensures |wire| == 2 * n
  {
    if n == 0 then []
    else (if n - 1 == addr then [opcode, data] else [OP_NOOP, 0]) + DevicePairs(n - 1, addr, opcode, data)
  }

  /** Byte `j` of `DevicePairs(n, ...)` belongs to device `n - 1 - j / 2`;
      even positions carry opcodes, odd positions data. */
  lemma {:induction false} DevicePairsAt(n: nat, addr: nat, opcode: bv8, data: bv8, j: nat)
    requires j < 2 * n
    ensures DevicePairs(n, addr, opcode, data)[j] ==
      if n - 1 - j / 2 != addr then OP_NOOP else if j % 2 == 0 then opcode else data
  {
    if j >= 2 {
      DevicePairsAt(n - 1, addr, opcode, data, j - 2);
    }
  }

  /** The frame `spiTransfer` emits is, device by device from the far end of
      the chain, an opcode/data pair that is a no-op except at the target. */
  lemma FrameIsDevicePairs(n: nat, addr: nat, opcode: bv8, data: bv8)
    requires addr < n
    ensures Frame(n, addr, opcode, data) == DevicePairs(n, addr, opcode, data)
  {
    var f, p := Frame(n, addr, opcode, data), DevicePairs(n, addr, opcode, data);
    forall j | 0 <= j < 2 * n ensures f[j] == p[j] {
      DevicePairsAt(n, addr, opcode, data, j);
    }
  }

  /** A chain of three devices, addressing the middle one: the buffer in
      memory is `[0, 0, data, opcode, 0, 0]` and the bytes on the wire are
      `[0, 0, opcode, data, 0, 0]`. */
  lemma ThreeDeviceFrame(opcode: bv8, data: bv8)
    ensures Buffer(3, 1, opcode, data) == [0, 0, data, opcode, 0, 0]
    ensures Frame(3, 1, opcode, data) == [0, 0, opcode, data, 0, 0]
  {
    FrameIsDevicePairs(3, 1, opcode, data);
  }

  /** The frames of a run of register writes to device `addr`, one frame per
      word, in order. */
  function Frames(n: nat, addr: nat, words: seq<Word>): (frames: seq<seq<bv8>>)
    requires addr < n
    ensures |frames| == |words|
  {
    seq(|words|, j requires 0 <= j < |words| => Frame(n, addr, words[j].opcode, words[j].data))
  }

  /** A trace ending with the frames of a run, followed by one more write,
      ends with the frames of the longer run. */
  lemma FramesSnoc(before: seq<seq<bv8>>, n: nat, addr: nat, words: seq<Word>, k: nat)
    requires addr < n && k < |words|
    ensures before + Frames(n, addr, words[..k + 1]) ==
      (before + Frames(n, addr, words[..k])) + [Frame(n, addr, words[k].opcode, words[k].data)]
  {
  }

  /** The frames of two runs sent one after the other. */
  lemma FramesAppend(n: nat, addr: nat, first: seq<Word>, second: seq<Word>)
    requires addr < n
    ensures Frames(n, addr, first + second) == Frames(n, addr, first) + Frames(n, addr, second)
  {
  }
}
