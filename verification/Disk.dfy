/** A hard disk: the checks in front of the sector store, and the READ and WRITE commands. */
module Disks {
  import opened Bytes
  import opened Sectors
  import opened DiskCaches

  // sense keys
  const NOT_READY: nat := 0x02
  const MEDIUM_ERROR: nat := 0x03
  const ILLEGAL_REQUEST: nat := 0x05
  const UNIT_ATTENTION: nat := 0x06
  const DATA_PROTECT: nat := 0x07
  const ABORTED_COMMAND: nat := 0x0B

  // additional sense codes
  const NO_ADDITIONAL_SENSE_INFORMATION: nat := 0x00
  const WRITE_FAULT: nat := 0x03
  const READ_FAULT: nat := 0x11
  const INVALID_COMMAND_OPERATION_CODE: nat := 0x20
  const LBA_OUT_OF_RANGE: nat := 0x21
  const INVALID_FIELD_IN_CDB: nat := 0x24
  const INVALID_LUN: nat := 0x25
  const WRITE_PROTECTED: nat := 0x27
  const NOT_READY_TO_READY_CHANGE: nat := 0x28
  const POWER_ON_OR_RESET: nat := 0x29
  const MEDIUM_NOT_PRESENT: nat := 0x3A

  datatype ScsiError = ScsiError(key: nat, asc: nat)

  /** What a call that may throw a SCSI error does. */
  datatype Outcome = Done | Fail(error: ScsiError)

  // ---------- the fields of READ and WRITE CDBs ----------

  datatype AccessMode = RW6 | RW10 | RW16

  function BigEndian(bytes: seq<byte>): (n: nat)
    decreases |bytes|
  {
    if bytes == [] then 0 else BigEndian(bytes[..|bytes| - 1]) * 0x100 + bytes[|bytes| - 1]
  }

  function StartOf(cmd: seq<byte>, mode: AccessMode): nat
    requires |cmd| == 16
  {
    match mode
    case RW6 => BigEndian([cmd[1] % 0x20, cmd[2], cmd[3]])
    case RW10 => BigEndian(cmd[2..6])
    case RW16 => BigEndian(cmd[2..10])
  }

  function CountOf(cmd: seq<byte>, mode: AccessMode): nat
    requires |cmd| == 16
  {
    match mode
    case RW6 => if cmd[4] == 0 then 0x100 else cmd[4]
    case RW10 => BigEndian(cmd[7..9])
    case RW16 => BigEndian(cmd[10..14])
  }

  class Disk {
    const dcache: DiskCache
    var ready: bool
    var writeProtected: bool
    var reset: bool
    var attn: bool
    var mediumChanged: bool
    var statusCode: nat

    ghost predicate Valid()
      reads dcache, dcache.Repr
    {
      this !in dcache.Repr && dcache.Valid() && !dcache.raw && dcache.blocks > 0 && 9 <= dcache.shift <= 12
    }

    /** What the disk holds. */
    ghost function Store(): seq<Sector>
      reads dcache`store
    {
      dcache.store
    }

    function Size(): nat {
      SectorSize(dcache.shift)
    }

    lemma HoldsAllBlocks()
      requires Valid()
      ensures |Store()| == dcache.blocks
    {
    }

    constructor (dcache: DiskCache)
      requires dcache.Valid() && !dcache.raw && dcache.blocks > 0 && 9 <= dcache.shift <= 12
      ensures Valid() && this.dcache == dcache
    {
      this.dcache := dcache;
      ready, writeProtected, reset, attn, mediumChanged, statusCode := true, false, false, false, false, 0;
    }

    /** Nothing stands in the way of a command. */
    predicate Attentive()
      reads `ready, `reset, `attn
    {
      ready && !reset && !attn
    }

    /** The image file holds the whole disk, and since it was like this no file operation has failed. */
    ghost predicate Healthy(bytes0: seq<byte>, faults0: nat)
      reads dcache.image`faults
    {
      dcache.Whole(|bytes0|) && dcache.image.faults == faults0
    }

    /** The image file is as long as it was, and faults are never forgotten. */
    ghost predicate HealthKept(bytes0: seq<byte>, faults0: nat)
      reads dcache.image`bytes, dcache.image`faults
    {
      |dcache.image.bytes| == |bytes0| && dcache.image.faults >= faults0
    }

    method CheckReady() returns (r: Outcome)
      modifies `reset, `attn
      ensures r == if old(reset) then Fail(ScsiError(UNIT_ATTENTION, POWER_ON_OR_RESET))
                   else if old(attn) then Fail(ScsiError(UNIT_ATTENTION, NOT_READY_TO_READY_CHANGE))
                   else if !ready then Fail(ScsiError(NOT_READY, MEDIUM_NOT_PRESENT)) else Done
      ensures !reset && attn == (old(attn) && old(reset))
    {
      if reset {
        reset := false;
        return Fail(ScsiError(UNIT_ATTENTION, POWER_ON_OR_RESET));
      }
      if attn {
        attn := false;
        return Fail(ScsiError(UNIT_ATTENTION, NOT_READY_TO_READY_CHANGE));
      }
      if !ready {
        return Fail(ScsiError(NOT_READY, MEDIUM_NOT_PRESENT));
      }
      return Done;
    }

    /** Reads a sector into the start of the buffer. The range error comes exactly from blocks past the end. */
    method Read(buf: array<byte>, block: nat) returns (r: Outcome)
      requires Valid() && buf !in dcache.Repr && Size() <= buf.Length
      modifies `reset, `attn, dcache.Repr, buf
      ensures Valid() && fresh(dcache.Repr - old(dcache.Repr)) && Store() == old(Store())
      ensures HealthKept(old(dcache.image.bytes), old(dcache.image.faults))
      ensures Healthy(old(dcache.image.bytes),
          old(dcache.image.faults)) && old(Attentive()) && block < dcache.blocks ==>
                r.Done?
      ensures r.Done? ==> block < dcache.blocks && buf[..Size()] == Store()[block]
      ensures r == Fail(ScsiError(ILLEGAL_REQUEST, INVALID_FIELD_IN_CDB)) <==>
          old(Attentive()) && block >= dcache.blocks
      ensures r.Fail? && r.error.key == ILLEGAL_REQUEST ==> block >= dcache.blocks
    {
      r := CheckReady();
      if r.Fail? {
        return;
      }
      if block >= dcache.blocks {
        return Fail(ScsiError(ILLEGAL_REQUEST, INVALID_FIELD_IN_CDB));
      }
      var ok := dcache.ReadSector(buf, block);
      if !ok {
        return Fail(ScsiError(MEDIUM_ERROR, READ_FAULT));
      }
    }

    method WriteCheck(block: nat) returns (r: Outcome)
      modifies `reset, `attn
      ensures r.Done? <==> old(Attentive()) && block < dcache.blocks && !writeProtected
      ensures r == Fail(ScsiError(ILLEGAL_REQUEST, INVALID_FIELD_IN_CDB)) <==>
          old(Attentive()) && block >= dcache.blocks
      ensures r == Fail(ScsiError(DATA_PROTECT, WRITE_PROTECTED)) <==>
          old(Attentive()) && block < dcache.blocks && writeProtected
      ensures r.Fail? && r.error.key == ILLEGAL_REQUEST ==> block >= dcache.blocks
    {
      r := CheckReady();
      if r.Fail? {
        return;
      }
      if block >= dcache.blocks {
        return Fail(ScsiError(ILLEGAL_REQUEST, INVALID_FIELD_IN_CDB));
      }
      if writeProtected {
        return Fail(ScsiError(DATA_PROTECT, WRITE_PROTECTED));
      }
    }

    /** Writes the start of the buffer to a sector, or changes nothing. */
    method Write(buf: array<byte>, block: nat) returns (r: Outcome)
      requires Valid() && buf !in dcache.Repr && Size() <= buf.Length
      modifies dcache.Repr
      ensures Valid() && fresh(dcache.Repr - old(dcache.Repr))
      ensures if !ready then r == Fail(ScsiError(NOT_READY, NO_ADDITIONAL_SENSE_INFORMATION))
              else if block >= dcache.blocks then r == Fail(ScsiError(ILLEGAL_REQUEST, LBA_OUT_OF_RANGE))
              else if writeProtected then r == Fail(ScsiError(DATA_PROTECT, WRITE_PROTECTED))
              else r in {Done, Fail(ScsiError(MEDIUM_ERROR, WRITE_FAULT))}
      ensures HealthKept(old(dcache.image.bytes), old(dcache.image.faults))
      ensures ready && block < dcache.blocks && !writeProtected && Healthy(old(dcache.image.bytes),
          old(dcache.image.faults)) ==>
                r.Done?
      ensures r.Done? ==> Store() == old(Store())[block := buf[..Size()]]
      ensures r.Fail? ==> Store() == old(Store())
    {
      if !ready {
        return Fail(ScsiError(NOT_READY, NO_ADDITIONAL_SENSE_INFORMATION));
      }
      if block >= dcache.blocks {
        return Fail(ScsiError(ILLEGAL_REQUEST, LBA_OUT_OF_RANGE));
      }
      if writeProtected {
        return Fail(ScsiError(DATA_PROTECT, WRITE_PROTECTED));
      }
      var ok := dcache.WriteSector(buf, block);
      if !ok {
        return Fail(ScsiError(MEDIUM_ERROR, WRITE_FAULT));
      }
      return Done;
    }
  }
}
