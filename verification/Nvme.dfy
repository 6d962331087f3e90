/**
  The NVMe I/O queue pair of kernel/src/nvme.rs with the device on the other end of the rings.
  Driver and device together implement an atomic block store (section 4.6 of NVM Express 1.4
  describes the phase tag).
 */
module Nvme {
  import opened Bytes
  import opened Disk

  const QUEUE_SIZE: nat := 64

  const OPCODE_WRITE: nat := 0x01
  const OPCODE_READ: nat := 0x02
  const TOO_LARGE: nat := 0xFFFF

  type Slot = x: int | 0 <= x < QUEUE_SIZE
  type Phase = x: int | 0 <= x < 2

  /** The fields of a submission entry that the driver sets. */
  datatype Command = Command(opcode: nat, nsid: nat, dptr: nat, cdw10: u32, cdw11: u32, cdw12: nat)

  const EMPTY_COMMAND: Command := Command(0, 0, 0, 0, 0, 0)

  function LowWord(lba: nat): u32 { lba % 0x1_0000_0000 }

  function HighWord(lba: nat): u32 { (lba / 0x1_0000_0000) % 0x1_0000_0000 }

  function BlockCommand(opcode: nat, lba: nat, dptr: nat): Command {
    Command(opcode, 1, dptr, LowWord(lba), HighWord(lba), 0)
  }

  /** What the device takes a command for: 01h write and 02h read, one block of namespace 1 at this buffer. */
  predicate IsWrite(c: Command, buffer: nat) {
    c.opcode == 1 && c.nsid == 1 && c.cdw12 % 0x1_0000 == 0 && c.dptr == buffer
  }

  predicate IsRead(c: Command, buffer: nat) {
    c.opcode == 2 && c.nsid == 1 && c.cdw12 % 0x1_0000 == 0 && c.dptr == buffer
  }

  /** The address the device reads back from the two command words. */
  function CommandLba(c: Command): nat { c.cdw10 + c.cdw11 * 0x1_0000_0000 }

  lemma LbaSplit(lba: nat)
    requires lba < U64_LIMIT
    ensures LowWord(lba) + HighWord(lba) * 0x1_0000_0000 == lba
  {
  }

  /** The phase tag of the completion with running number n: 1 on the first lap, then alternating. */
  function PhaseOf(n: nat): Phase {
    if n / QUEUE_SIZE % 2 == 0 then 1 else 0
  }

  function SlotOf(n: nat): Slot { n % QUEUE_SIZE }

  function NextSlot(s: Slot): Slot {
    if s + 1 == QUEUE_SIZE then 0 else s + 1
  }

  /** Stepping the ring index and flipping the phase at the wrap follows the running number. */
  lemma NextSlotAndPhase(n: nat)
    ensures SlotOf(n + 1) == NextSlot(SlotOf(n))
    ensures PhaseOf(n + 1) == if NextSlot(SlotOf(n)) == 0 then 1 - PhaseOf(n) else PhaseOf(n)
  {
    var q, r := n / QUEUE_SIZE, n % QUEUE_SIZE;
    assert n == q * QUEUE_SIZE + r;
    if r + 1 == QUEUE_SIZE {
      assert n + 1 == (q + 1) * QUEUE_SIZE;
      assert (n + 1) / QUEUE_SIZE == q + 1;
    } else {
      assert (n + 1) / QUEUE_SIZE == q;
    }
  }

  /** The phase tag a completion slot holds once n completions have been posted. */
  function SlotPhase(n: nat, s: Slot): Phase {
    if s < SlotOf(n) then PhaseOf(n) else 1 - PhaseOf(n)
  }

  /** Posting completion n changes the tag of its own slot and of no other. */
  lemma PostChangesOneTag(n: nat, s: Slot)
    ensures SlotPhase(n + 1, s) == if s == SlotOf(n) then PhaseOf(n) else SlotPhase(n, s)
    ensures SlotPhase(n, SlotOf(n)) != PhaseOf(n)
  {
    NextSlotAndPhase(n);
  }

  class NvmeController {
    // Driver side.
    var ioSqTail: nat
    var ioCqHead: nat
    var ioPhase: nat
    const ioBufPhys: nat

    // Memory shared with the device.
    const ioSq: array<Command>
    const ioCq: array<nat>          // completion status words: (status code << 1) | phase tag
    var ioBuf: Text                 // the 4096-byte DMA landing pad
    var sqDoorbell: nat
    var cqDoorbell: nat

    // Device side.
    var devSqHead: nat
    var devCqTail: nat
    var devPhase: nat
    var disk: Disk

    ghost var issued: nat           // commands submitted so far
    ghost var posted: nat           // completions posted so far
    ghost var faults: nat           // completions that reported an error

    /** Ring state between commands and while one is in flight. */
    ghost predicate RingState()
      reads this, ioSq, ioCq
    {
      && ioSq.Length == QUEUE_SIZE && ioCq.Length == QUEUE_SIZE
      && |ioBuf| == BLOCK_SIZE
      && posted <= issued <= posted + 1
      && ioSqTail == SlotOf(issued) && sqDoorbell == ioSqTail
      && devSqHead == SlotOf(posted) && devCqTail == SlotOf(posted) && devPhase == PhaseOf(posted)
      && forall s :: 0 <= s < QUEUE_SIZE ==> ioCq[s] % 2 == SlotPhase(posted, s)
    }

    /** Between commands: every completion has been consumed, exactly once and in order. */
    ghost predicate Valid()
      reads this, ioSq, ioCq
    {
      && RingState()
      && posted == issued
      && ioCqHead == SlotOf(issued) && cqDoorbell == ioCqHead
      && ioPhase == PhaseOf(issued)
    }

    constructor (bufPhys: nat)
      ensures Valid() && issued == 0 && disk == BLANK
      ensures fresh(ioSq) && fresh(ioCq)
    {
      ioSqTail, ioCqHead, ioPhase, ioBufPhys := 0, 0, 1, bufPhys;
      ioSq := new Command[QUEUE_SIZE](_ => EMPTY_COMMAND);
      ioCq := new nat[QUEUE_SIZE](_ => 0);
      ioBuf := Zeros(BLOCK_SIZE);
      sqDoorbell, cqDoorbell, devSqHead, devCqTail, devPhase := 0, 0, 0, 0, 1;
      disk := BLANK;
      issued, posted, faults := 0, 0, 0;
    }

    /**
      The device carries out a command. A failing command reports a non-zero status code; a failing
      write may or may not have reached the medium, but never reaches it in part.
     */
    method Perform(c: Command) returns (code: nat)
      requires |ioBuf| == BLOCK_SIZE
      modifies this`ioBuf, this`disk, this`faults
      ensures |ioBuf| == BLOCK_SIZE
      ensures faults == old(faults) + if code == 0 then 0 else 1
      ensures Performed(c, code, old(disk), old(ioBuf))
    {
      var outcome: int := *;           // the device's own verdict
      code := if outcome < 0 then 0 else outcome;
      faults := faults + if code == 0 then 0 else 1;
      if IsWrite(c, ioBufPhys) {
        var applied: bool := *;
        if code == 0 || applied {
          disk := disk[CommandLba(c) := ioBuf];
        }
      } else if IsRead(c, ioBufPhys) {
        var landed: Text := *;         // a failed read leaves anything in the buffer
        if code == 0 || |landed| != BLOCK_SIZE {
          landed := Get(disk, CommandLba(c));
        }
        ioBuf := landed;
      } else {
        disk := *;                     // nothing is known about other commands
      }
    }

    /** The device posts the completion of the command it has carried out. */
    method PostCompletion(code: nat)
      requires RingState() && posted + 1 == issued
      modifies this`devSqHead, this`devCqTail, this`devPhase, this`posted, ioCq
      ensures RingState() && posted == issued
      ensures ioCq[SlotOf(old(posted))] == code * 2 + PhaseOf(old(posted))
    {
      forall s | 0 <= s < QUEUE_SIZE
        ensures SlotPhase(posted + 1, s) == if s == SlotOf(posted) then PhaseOf(posted) else SlotPhase(posted, s)
      {
        PostChangesOneTag(posted, s);
      }
      NextSlotAndPhase(posted);
      ioCq[devCqTail] := code * 2 + devPhase;
      devSqHead := NextSlot(devSqHead);
      devCqTail := NextSlot(devCqTail);
      if devCqTail == 0 {
        devPhase := 1 - devPhase;
      }
      posted := posted + 1;
    }

    /** How buffer and medium look after a block command that ended with `code`. */
    ghost predicate Performed(c: Command, code: nat, disk0: Disk, buf0: Text)
      requires |buf0| == BLOCK_SIZE
      reads this
    {
      && (IsWrite(c, ioBufPhys) ==>
            && ioBuf == buf0
            && (code == 0 ==> disk == disk0[CommandLba(c) := buf0])
            && (disk == disk0 || disk == disk0[CommandLba(c) := buf0]))
      && (IsRead(c, ioBufPhys) ==>
            && disk == disk0
            && (code == 0 ==> ioBuf == Get(disk, CommandLba(c))))
    }

    /** A command is in flight in slot `n`: enqueued, announced, not yet answered. */
    ghost predicate InFlight(cmd: Command, n: nat)
      reads this, ioSq, ioCq
    {
      && RingState() && issued == n + 1
      && ioCqHead == SlotOf(n) && ioPhase == PhaseOf(n)
      && ioSq[SlotOf(n)] == cmd
    }

    method Enqueue(cmd: Command)
      requires Valid()
      modifies this`ioSqTail, this`issued, this`sqDoorbell, ioSq
      ensures InFlight(cmd, old(issued)) && posted == old(issued)
    {
      NextSlotAndPhase(issued);
      ioSq[ioSqTail] := cmd;
      ioSqTail := ioSqTail + 1;
      if ioSqTail == QUEUE_SIZE {
        ioSqTail := 0;
      }
      issued := issued + 1;
      sqDoorbell := ioSqTail;
    }

    /**
      Spins on the head completion slot until its tag turns. The device answers after any number of
      spins; until then the slot holds the stale tag, so a stale entry is never accepted.
     */
    method AwaitCompletion(ghost cmd: Command, ghost n: nat) returns (code: nat)
      requires InFlight(cmd, n) && posted == n
      modifies this`ioBuf, this`devSqHead, this`devCqTail, this`devPhase, this`disk, this`posted, this`faults, ioCq
      ensures InFlight(cmd, n) && posted == issued
      ensures faults == old(faults) + if code == 0 then 0 else 1
      ensures ioCq[SlotOf(n)] == code * 2 + PhaseOf(n)
      ensures Performed(cmd, code, old(disk), old(ioBuf))
    {
      PostChangesOneTag(n, SlotOf(n));
      var spins: int := *;             // how long the device takes
      code := 0;
      while ioCq[ioCqHead] % 2 != ioPhase
        invariant InFlight(cmd, n)
        invariant posted == n ==>
                    ioCq[ioCqHead] % 2 != ioPhase && disk == old(disk) && ioBuf == old(ioBuf) && faults == old(faults)
        invariant posted == issued ==>
                    && ioCq[ioCqHead] == code * 2 + ioPhase && Performed(cmd, code, old(disk), old(ioBuf))
                    && faults == old(faults) + if code == 0 then 0 else 1
        decreases issued - posted, spins
      {
        if spins <= 0 {
          code := Perform(ioSq[devSqHead]);
          PostCompletion(code);
        }
        spins := spins - 1;
      }
    }

    /** `submit_io_cmd`: enqueue, ring the doorbell, wait, consume exactly this command's completion. */
    method SubmitIoCmd(cmd: Command) returns (r: Result<(), nat>)
      requires Valid()
      modifies this, ioSq, ioCq
      ensures Valid() && issued == old(issued) + 1
      ensures ioSqTail == issued % 64 && ioCqHead == issued % 64 && ioPhase == (if issued / 64 % 2 == 0 then 1 else 0)
      ensures r.Err? ==> r.error / 2 != 0
      ensures faults == old(faults) + if r.Ok? then 0 else 1
      ensures Performed(cmd, if r.Ok? then 0 else r.error / 2, old(disk), old(ioBuf))
    {
      ghost var n := issued;
      Enqueue(cmd);
      var code := AwaitCompletion(cmd, n);
      NextSlotAndPhase(n);
      var status := ioCq[ioCqHead];
      ioCqHead := ioCqHead + 1;
      if ioCqHead == QUEUE_SIZE {
        ioCqHead := 0;
        ioPhase := 1 - ioPhase;
      }
      cqDoorbell := ioCqHead;
      return if status / 2 == 0 then Ok(()) else Err(status);
    }

    /** `write_block`: on success exactly one block changes; on failure that block or nothing. */
    method WriteBlock(lba: nat, data: Text) returns (r: Result<(), nat>)
      requires Valid() && lba < U64_LIMIT
      modifies this, ioSq, ioCq
      ensures Valid()
      ensures |data| > BLOCK_SIZE ==>
                r == Err(0xFFFF) && disk == old(disk) && issued == old(issued) && faults == old(faults)
      ensures |data| <= BLOCK_SIZE ==>
                && issued == old(issued) + 1
                && faults == old(faults) + (if r.Ok? then 0 else 1)
                && (r.Ok? ==> disk == old(disk)[lba := Pad(data)])
                && (disk == old(disk) || disk == old(disk)[lba := Pad(data)])
    {
      if |data| > BLOCK_SIZE {
        return Err(TOO_LARGE);
      }
      ioBuf := data + Zeros(BLOCK_SIZE - |data|);
      LbaSplit(lba);
      r := SubmitIoCmd(BlockCommand(OPCODE_WRITE, lba, ioBufPhys));
    }

    /** `read_block`: the block at `lba`, or an error; the drive is not changed. */
    method ReadBlock(lba: nat) returns (r: Result<Block, nat>)
      requires Valid() && lba < U64_LIMIT
      modifies this, ioSq, ioCq
      ensures Valid() && disk == old(disk) && issued == old(issued) + 1
      ensures r.Ok? ==> r.value == Get(disk, lba)
      ensures faults == old(faults) + if r.Ok? then 0 else 1
    {
      ioBuf := Zeros(BLOCK_SIZE);
      LbaSplit(lba);
      var done := SubmitIoCmd(BlockCommand(OPCODE_READ, lba, ioBufPhys));
      return match done case Ok(_) => Ok(ioBuf) case Err(e) => Err(e);
    }
  }
}
