/** The AvbOps callbacks the UEFI adapter gives the verified-boot engine:
    partition reads and writes against the disk, the trust decision for a
    vbmeta public key, the stubbed rollback-index store and the formatting
    of a partition's unique GUID. */
module UefiAvbOps {
  import opened AvbIo
  import opened PartitionRange
  import opened KeyTrust
  import opened GuidFormat

  /** What the GPT lookup reports for a partition: the first and last LBA
      of its entry (both inclusive), the block size of the media holding
      it and the entry's unique GUID. */
  datatype GptPartition = GptPartition(startingLba: u64, endingLba: u64, blockSize: u32, unique: Guid)

  /** partition_size as both transfer operations compute it from the entry. */
  function SizeOf(p: GptPartition): u64
  {
    PartitionSize(p.startingLba, p.endingLba, p.blockSize)
  }

  /** The disk address ReadDisk and WriteDisk are given for partition
      offset `offset`. */
  function AddressOf(p: GptPartition, offset: u64): u64
  {
    StartByte(p.startingLba, p.blockSize, offset)
  }

  /** Disk address `address` lies beyond the partition's last byte. */
  predicate PastPartitionEnd(p: GptPartition, address: int)
  {
    address >= p.startingLba * p.blockSize + SizeOf(p)
  }

  /** As written, a read or a write at a non-negative offset past the end of
      a partition goes ahead in full, on disk bytes beyond the partition's
      last byte (whenever the addresses fit in 64 bits), where the corrected
      plans refuse it. With partition size 512, offset 1024 and 16 bytes,
      that is the 16 bytes from partition offset 1024. */
  lemma PastEndTransferOutsidePartition(p: GptPartition, offset: i64, numBytes: u64)
    requires SizeOf(p) < offset && numBytes < TWO_TO_THE_63
    requires p.startingLba * p.blockSize + offset < TWO_TO_THE_64
    ensures ReadPlanAsWritten(offset, numBytes, SizeOf(p)) == Some(Transfer(offset, numBytes))
    ensures WritePlanAsWritten(offset, numBytes, SizeOf(p)) == Some(offset)
    ensures ReadPlan(offset, numBytes, SizeOf(p)).None? && WritePlan(offset, numBytes, SizeOf(p)).None?
    ensures PastPartitionEnd(p, AddressOf(p, offset))
  {
    ReadPastEndAsWritten(offset, numBytes, SizeOf(p));
    WritePastEndAsWritten(offset, numBytes, SizeOf(p));
  }

  class UefiAvbOps {
    /** The bytes the firmware's DiskIo protocol reads and writes. */
    const disk: array<bv8>
    /** The partitions of the user logical unit, by label. */
    const partitions: map<string, GptPartition>
    /** The public key linked into the image, the bytes from
        _binary_avb_pk_start up to _binary_avb_pk_end. */
    const avbPk: seq<bv8>

    constructor (disk: array<bv8>, partitions: map<string, GptPartition>, avbPk: seq<bv8>)
      ensures this.disk == disk && this.partitions == partitions && this.avbPk == avbPk
    {
      this.disk := disk;
      this.partitions := partitions;
      this.avbPk := avbPk;
    }

    /** Whether the firmware's ReadDisk or WriteDisk of `count` bytes at
        byte `address` succeeds: not when the device reports an error
        (`fault`), and not when the range runs off the disk. */
    predicate TransferSucceeds(address: u64, count: u64, fault: bool)
    {
      !fault && address + count <= disk.Length
    }

    /** read_from_partition. `outNumRead` is what *out_num_read held
        before the call; it is left alone on the early error returns.
        `labelAllocFails` stands for stra_to_str running out of memory and
        `diskFault` for an error reported by ReadDisk. */
    method ReadFromPartition(partitionName: string, offsetFromPartition: i64, numBytes: u64,
                             buf: array<bv8>, outNumRead: u64, labelAllocFails: bool, diskFault: bool)
      returns (result: IoResult, numRead: u64)
      requires buf != disk && numBytes <= buf.Length
      modifies buf
      ensures labelAllocFails ==>
                result == ErrorOom && numRead == outNumRead && buf[..] == old(buf[..])
      ensures !labelAllocFails && partitionName !in partitions ==>
                result == ErrorNoSuchPartition && numRead == outNumRead && buf[..] == old(buf[..])
      ensures !labelAllocFails && partitionName in partitions ==>
                var p := partitions[partitionName];
                var plan := ReadPlanAsWritten(offsetFromPartition, numBytes, SizeOf(p));
                if plan.None? then
                  result == ErrorRangeOutsidePartition && numRead == outNumRead && buf[..] == old(buf[..])
                else
                  var address := AddressOf(p, plan.value.offset);
                  if !TransferSucceeds(address, plan.value.count, diskFault) then
                    result == ErrorIo && numRead == 0 && buf[..] == old(buf[..])
                  else
                    result == Ok && numRead == plan.value.count &&
                    buf[..numRead] == disk[address..address + numRead] &&
                    buf[numRead..] == old(buf[numRead..])
      ensures !labelAllocFails && partitionName in partitions && result == Ok ==>
                var p := partitions[partitionName];
                var plan := ReadPlanAsWritten(offsetFromPartition, numBytes, SizeOf(p));
                plan.Some? && plan.value.offset > SizeOf(p) && p.startingLba * p.blockSize + plan.value.offset < TWO_TO_THE_64 ==>
                  PastPartitionEnd(p, AddressOf(p, plan.value.offset))
    {
      if labelAllocFails {
        return ErrorOom, outNumRead;
      }
      if partitionName !in partitions {
        return ErrorNoSuchPartition, outNumRead;
      }
      var p := partitions[partitionName];
      var partitionSize := SizeOf(p);
      ghost var plan := ReadPlanAsWritten(offsetFromPartition, numBytes, partitionSize);
      var offset: u64;
      match NormaliseOffset(offsetFromPartition, partitionSize) {
        case None =>
          assert plan.None?;
          return ErrorRangeOutsidePartition, outNumRead;
        case Some(off) =>
          offset := off;
      }
      // Nothing checks that `offset` is at most the size: the difference
      // wraps as a uint64_t (see ReadPastEndAsWritten).
      var available := Wrap64(partitionSize - offset);
      if numBytes > available {
        numRead := available;
      } else {
        numRead := numBytes;
      }
      assert plan == Some(Transfer(offset, numRead));
      var address := AddressOf(p, offset);
      if !TransferSucceeds(address, numRead, diskFault) {
        return ErrorIo, 0;
      }
      forall i | 0 <= i < numRead {
        buf[i] := disk[address + i];
      }
      assert buf[..numRead] == disk[address..address + numRead];
      result := Ok;
    }

    /** write_to_partition. `labelAllocFails` stands for stra_to_str
        running out of memory and `diskFault` for an error reported by
        WriteDisk. */
    method WriteToPartition(partitionName: string, offsetFromPartition: i64, numBytes: u64,
                            buf: seq<bv8>, labelAllocFails: bool, diskFault: bool)
      returns (result: IoResult)
      requires numBytes <= |buf|
      modifies disk
      ensures result != Ok ==> disk[..] == old(disk[..])
      ensures labelAllocFails ==> result == ErrorOom
      ensures !labelAllocFails && partitionName !in partitions ==> result == ErrorNoSuchPartition
      ensures !labelAllocFails && partitionName in partitions ==>
                var p := partitions[partitionName];
                var plan := WritePlanAsWritten(offsetFromPartition, numBytes, SizeOf(p));
                if plan.None? then
                  result == ErrorRangeOutsidePartition
                else
                  var address := AddressOf(p, plan.value);
                  if !TransferSucceeds(address, numBytes, diskFault) then
                    result == ErrorIo
                  else
                    result == Ok &&
                    disk[..] == old(disk[..address]) + buf[..numBytes] + old(disk[address + numBytes..])
      ensures !labelAllocFails && partitionName in partitions && result == Ok ==>
                var p := partitions[partitionName];
                var plan := WritePlanAsWritten(offsetFromPartition, numBytes, SizeOf(p));
                plan.Some? && plan.value > SizeOf(p) && p.startingLba * p.blockSize + plan.value < TWO_TO_THE_64 ==>
                  PastPartitionEnd(p, AddressOf(p, plan.value))
    {
      if labelAllocFails {
        return ErrorOom;
      }
      if partitionName !in partitions {
        return ErrorNoSuchPartition;
      }
      var p := partitions[partitionName];
      var partitionSize := SizeOf(p);
      ghost var plan := WritePlanAsWritten(offsetFromPartition, numBytes, partitionSize);
      var offset: u64;
      match NormaliseOffset(offsetFromPartition, partitionSize) {
        case None =>
          assert plan.None?;
          return ErrorRangeOutsidePartition;
        case Some(off) =>
          offset := off;
      }
      // The difference wraps as a uint64_t when `offset` is past the end,
      // and the write then goes ahead (see WritePastEndAsWritten).
      if numBytes > Wrap64(partitionSize - offset) {
        assert plan.None?;
        return ErrorRangeOutsidePartition;
      }
      assert plan == Some(offset);
      var address := AddressOf(p, offset);
      if !TransferSucceeds(address, numBytes, diskFault) {
        return ErrorIo;
      }
      forall i | 0 <= i < numBytes {
        disk[address + i] := buf[i];
      }
      assert disk[..] == old(disk[..address]) + buf[..numBytes] + old(disk[address + numBytes..]);
      result := Ok;
    }

    /** validate_vbmeta_public_key. `None` stands for a NULL key pointer;
        the metadata is accepted and never inspected. `keyIsTrusted` is
        what the call leaves in *out_key_is_trusted (nothing is written
        when that pointer is NULL). */
    method ValidateVbmetaPublicKey(publicKeyData: Option<seq<bv8>>, publicKeyMetadata: Option<seq<bv8>>)
      returns (result: IoResult, keyIsTrusted: bool)
      ensures result == (if publicKeyData.None? || |publicKeyData.value| == 0 then ErrorIo else Ok)
      ensures keyIsTrusted <==> publicKeyData.Some? && IsTrustedKey(avbPk, publicKeyData.value)
    {
      keyIsTrusted := false;
      if publicKeyData.None? || |publicKeyData.value| == 0 {
        return ErrorIo, keyIsTrusted;
      }
      var key := publicKeyData.value;
      if |key| <= |avbPk| {
        MemcmpZeroIffEqual(avbPk, key, |key|);
      }
      if |key| <= |avbPk| && Memcmp(avbPk, key, |key|) == 0 {
        keyIsTrusted := true;
      }
      result := Ok;
    }

    /** read_rollback_index: a stub that reports index 0 for every slot. */
    method ReadRollbackIndex(rollbackIndexSlot: u64) returns (result: IoResult, rollbackIndex: u64)
      ensures result == Ok && rollbackIndex == 0
    {
      result, rollbackIndex := Ok, 0;
    }

    /** write_rollback_index: a stub that accepts every write and stores
        nothing (it modifies no state). */
    method WriteRollbackIndex(rollbackIndexSlot: u64, rollbackIndex: u64) returns (result: IoResult)
      ensures result == Ok
    {
      result := Ok;
    }

    /** get_unique_guid_for_partition. `guidBufSize` is the size the caller
        passes for `guidBuf`. */
    method GetUniqueGuidForPartition(partition: string, guidBuf: array<char>, guidBufSize: u64,
                                     labelAllocFails: bool)
      returns (result: IoResult)
      requires guidBufSize <= guidBuf.Length
      modifies guidBuf
      ensures result != Ok ==> guidBuf[..] == old(guidBuf[..])
      ensures labelAllocFails ==> result == ErrorOom
      ensures !labelAllocFails && partition !in partitions ==> result == ErrorIo
      ensures !labelAllocFails && partition in partitions && guidBufSize < 37 ==> result == ErrorIo
      ensures !labelAllocFails && partition in partitions && guidBufSize >= 37 ==>
                result == Ok &&
                guidBuf[..37] == GuidString(partitions[partition].unique) &&
                guidBuf[37..] == old(guidBuf[37..])
    {
      if labelAllocFails {
        return ErrorOom;
      }
      if partition !in partitions {
        return ErrorIo;
      }
      if guidBufSize < 37 {
        return ErrorIo;
      }
      var uniqueGuid := partitions[partition].unique;
      ghost var written := guidBuf[..];
      SetHex(guidBuf, 0, uniqueGuid[3]);
      SetHex(guidBuf, 2, uniqueGuid[2]);
      SetHex(guidBuf, 4, uniqueGuid[1]);
      SetHex(guidBuf, 6, uniqueGuid[0]);
      guidBuf[8] := '-';
      written := TimeLowWrites(written, uniqueGuid);
      assert guidBuf[..] == written;
      SetHex(guidBuf, 9, uniqueGuid[5]);
      SetHex(guidBuf, 11, uniqueGuid[4]);
      guidBuf[13] := '-';
      written := TimeMidWrites(written, uniqueGuid);
      assert guidBuf[..] == written;
      SetHex(guidBuf, 14, uniqueGuid[7]);
      SetHex(guidBuf, 16, uniqueGuid[6]);
      guidBuf[18] := '-';
      written := TimeHighWrites(written, uniqueGuid);
      assert guidBuf[..] == written;
      SetHex(guidBuf, 19, uniqueGuid[8]);
      SetHex(guidBuf, 21, uniqueGuid[9]);
      guidBuf[23] := '-';
      written := ClockSeqWrites(written, uniqueGuid);
      assert guidBuf[..] == written;
      SetHex(guidBuf, 24, uniqueGuid[10]);
      SetHex(guidBuf, 26, uniqueGuid[11]);
      SetHex(guidBuf, 28, uniqueGuid[12]);
      SetHex(guidBuf, 30, uniqueGuid[13]);
      SetHex(guidBuf, 32, uniqueGuid[14]);
      SetHex(guidBuf, 34, uniqueGuid[15]);
      guidBuf[36] := '\0';
      written := NodeWrites(written, uniqueGuid);
      assert guidBuf[..] == written;
      GuidWritesRender(old(guidBuf[..]), uniqueGuid);
      result := Ok;
    }
  }
}
