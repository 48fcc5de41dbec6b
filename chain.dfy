/** What the devices of the chain receive. The chain is modelled as one shift
    register of `2*n` bytes: a byte clocked in enters at position 0 and every
    byte already there moves one position on (the byte in the last position
    leaves the chain). Device `d` holds positions `2*d` (its data byte) and
    `2*d + 1` (its opcode byte), and when the select line rises every device
    latches the pair it holds. */
module Chain {
  import opened Framing

  datatype Option<T> = None | Some(value: T)

  /** The chain after one more byte has been clocked in. */
  function ShiftIn(chain: seq<bv8>, b: bv8): (c: seq<bv8>)
    requires |chain| > 0
    ensures |c| == |chain| && c[0] == b
    ensures forall j :: 0 < j < |chain| ==> c[j] == chain[j - 1]
  {
    [b] + chain[..|chain| - 1]
  }

  /** The chain after `bytes` have been clocked in, first byte first. */
  function ShiftAll(chain: seq<bv8>, bytes: seq<bv8>): (c: seq<bv8>)
    requires |chain| > 0
    ensures |c| == |chain|
    decreases |bytes|
  {
    if bytes == [] then chain else ShiftAll(ShiftIn(chain, bytes[0]), bytes[1..])
  }

  /** After `bytes` are clocked in, position `j` holds the `j`-th most recent
      byte, or an older chain byte once all of `bytes` have passed it. */
  lemma {:induction false} ShiftAllAt(chain: seq<bv8>, bytes: seq<bv8>, j: nat)
    requires 0 < |chain| && j < |chain|
    ensures ShiftAll(chain, bytes)[j] ==
      if j < |bytes| then bytes[|bytes| - 1 - j] else chain[j - |bytes|]
    decreases |bytes|
  {
    if bytes != [] {
      var c, rest := ShiftIn(chain, bytes[0]), bytes[1..];
      assert ShiftAll(chain, bytes) == ShiftAll(c, rest);
      ShiftAllAt(c, rest, j);
      if j < |rest| {
        assert rest[|rest| - 1 - j] == bytes[|bytes| - 1 - j];
      } else if j == |rest| {
        assert c[0] == bytes[|bytes| - 1 - j];
      } else {
        assert c[j - |rest|] == chain[j - |bytes|];
      }
    }
  }

  /** Clocking a whole frame into the chain leaves exactly the transfer
      buffer in it, whatever the chain held before: shifting the buffer out
      from its highest index down puts `spidata[i]` at position `i`. */
  lemma ChainHoldsBuffer(chain: seq<bv8>, n: nat, addr: nat, opcode: bv8, data: bv8)
    requires addr < n && |chain| == 2 * n
    ensures ShiftAll(chain, Frame(n, addr, opcode, data)) == Buffer(n, addr, opcode, data)
  {
    var f := Frame(n, addr, opcode, data);
    forall j | 0 <= j < 2 * n
      ensures ShiftAll(chain, f)[j] == Buffer(n, addr, opcode, data)[j]
    {
      ShiftAllAt(chain, f, j);
    }
  }

  /** The register write device `d` latches from a chain. */
  function Latched(chain: seq<bv8>, d: nat): (w: Word)
    requires 2 * d + 1 < |chain|
  {
    Word(chain[2 * d + 1], chain[2 * d])
  }

  /** The register write device `d` latches when `frame` is clocked into a
      chain of the frame's length. */
  function Received(frame: seq<bv8>, d: nat): (w: Word)
    requires 2 * d + 1 < |frame|
  {
    Latched(ShiftAll(seq(|frame|, _ => 0), frame), d)
  }

  /** What a device latches from a full frame does not depend on what the
      chain held before the frame. */
  lemma ReceivedIgnoresPrior(prior: seq<bv8>, frame: seq<bv8>, d: nat)
    requires |prior| == |frame| && 2 * d + 1 < |frame|
    ensures Latched(ShiftAll(prior, frame), d) == Received(frame, d)
  {
    var zeros: seq<bv8> := seq(|frame|, _ => 0);
    ShiftAllAt(prior, frame, 2 * d);
    ShiftAllAt(prior, frame, 2 * d + 1);
    ShiftAllAt(zeros, frame, 2 * d);
    ShiftAllAt(zeros, frame, 2 * d + 1);
  }

  /** The frame of `spiTransfer(addr, opcode, data)` gives device `addr` the
      write `(opcode, data)` and every other device of the chain a no-op. */
  lemma FrameAddressesOnlyTarget(n: nat, addr: nat, opcode: bv8, data: bv8, d: nat)
    requires addr < n && d < n
    ensures Received(Frame(n, addr, opcode, data), d) ==
      if d == addr then Word(opcode, data) else Word(OP_NOOP, 0)
  {
    ChainHoldsBuffer(seq(2 * n, _ => 0), n, addr, opcode, data);
  }

  /** The data of the last write to register `reg` that device `d` latched
      from `frames`, or `None` if there was none. A no-op write stores
      nothing. */
  function LastWrite(frames: seq<seq<bv8>>, d: nat, reg: bv8): (v: Option<bv8>)
    decreases |frames|
  {
    if frames == [] then None
    else
      var f := frames[|frames| - 1];
      if reg != OP_NOOP && 2 * d + 1 < |f| && Received(f, d).opcode == reg then Some(Received(f, d).data)
      else LastWrite(frames[..|frames| - 1], d, reg)
  }

  /** The data of the last word of `words` that writes register `reg`. */
  function LastIn(words: seq<Word>, reg: bv8): (v: Option<bv8>)
  {
    if words == [] then None
    else if words[|words| - 1].opcode == reg then Some(words[|words| - 1].data)
    else LastIn(words[..|words| - 1], reg)
  }

  /** Sending a run of writes to device `addr` changes, for any device of
      the chain, only the registers of `addr` that the run writes, and
      those to the run's last value. */
  lemma {:induction false} LastWriteAfterFrames(all: seq<seq<bv8>>, frames: seq<seq<bv8>>, n: nat, addr: nat, words: seq<Word>, d: nat, reg: bv8)
    requires addr < n && d < n && reg != OP_NOOP
    requires all == frames + Frames(n, addr, words)
    ensures LastWrite(all, d, reg) ==
      if d == addr && LastIn(words, reg).Some? then LastIn(words, reg) else LastWrite(frames, d, reg)
    decreases |words|
  {
    if words == [] {
      assert all == frames;
    } else {
      var init := words[..|words| - 1];
      var w := words[|words| - 1];
      assert all[..|all| - 1] == frames + Frames(n, addr, init);
      FrameAddressesOnlyTarget(n, addr, w.opcode, w.data, d);
      LastWriteAfterFrames(frames + Frames(n, addr, init), frames, n, addr, init, d, reg);
    }
  }

  /** Sending one frame: the single-write case of `LastWriteAfterFrames`. */
  lemma LastWriteAfterFrame(frames: seq<seq<bv8>>, n: nat, addr: nat, opcode: bv8, data: bv8, d: nat, reg: bv8)
    requires addr < n && d < n && reg != OP_NOOP
    ensures LastWrite(frames + [Frame(n, addr, opcode, data)], d, reg) ==
      if d == addr && reg == opcode then Some(data) else LastWrite(frames, d, reg)
  {
    assert [Frame(n, addr, opcode, data)] == Frames(n, addr, [Word(opcode, data)]);
    LastWriteAfterFrames(frames + [Frame(n, addr, opcode, data)], frames, n, addr, [Word(opcode, data)], d, reg);
  }

  /** The byte a register holds as far as the driver knows: its last write,
      or 0 if the driver never wrote it. */
  function RegisterValue(frames: seq<seq<bv8>>, d: nat, reg: bv8): bv8
  {
    match LastWrite(frames, d, reg)
    case Some(v) => v
    case None => 0
  }
}
