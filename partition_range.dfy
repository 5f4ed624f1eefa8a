/** The arithmetic of read_from_partition and write_to_partition: the size of
    a partition, the normalisation of a partition-relative offset (negative
    means "from the end"), the clamping of a read and the rejection of a
    write at the partition end.

    Both operations check only negative offsets. A non-negative offset past
    the end is never refused, and `partition_size - offset_from_partition`
    then wraps around as a uint64_t, so neither the read clamp nor the write
    check fires. ReadPlanAsWritten and WritePlanAsWritten model the code as
    it is, and the adapter's methods follow them; the ...PastEndAsWritten
    lemmas exhibit the consequence. ReadPlan and WritePlan are the corrected
    checks, which also refuse an offset past the end. */
module PartitionRange {
  import opened AvbIo

  /** (ending_lba - starting_lba + 1) * BlockSize, evaluated in uint64_t. It
      is the exact byte count of the partition whenever the entry is well
      formed and the product fits. */
  function PartitionSize(startingLba: u64, endingLba: u64, blockSize: u32): (size: u64)
    ensures startingLba <= endingLba && (endingLba - startingLba + 1) * blockSize < TWO_TO_THE_64 ==>
              size == (endingLba - startingLba + 1) * blockSize
  {
    Wrap64((endingLba - startingLba + 1) * blockSize)
  }

  /** The physical byte address of partition offset `offset`:
      (starting_lba * BlockSize) + offset, evaluated in uint64_t. */
  function StartByte(startingLba: u64, blockSize: u32, offset: u64): (address: u64)
    ensures startingLba * blockSize + offset < TWO_TO_THE_64 ==> address == startingLba * blockSize + offset
  {
    Wrap64(Wrap64(startingLba * blockSize) + offset)
  }

  /** The offset normalisation both operations share. A negative offset
      counts back from the end of the partition; one whose magnitude exceeds
      the partition size is refused. The result is the value of the
      (rewritten) int64_t offset as the later uint64_t expressions see it.
      For INT64_MIN the negation in C is undefined; its two's-complement
      result converted to uint64_t is 2^63, the magnitude used here. */
  function NormaliseOffset(offset: i64, size: u64): (r: Option<u64>)
    ensures 0 <= offset ==> r == Some(offset)
    ensures offset < 0 ==> (r.None? <==> -(offset as int) > size)
    ensures offset < 0 && r.Some? ==> r.value == size + offset
  {
    if offset < 0 then
      var magnitude: u64 := -(offset as int);
      if magnitude > size then None
      else
        var rewritten: i64 := ToInt64(size - magnitude);
        Some(ToUint64(rewritten))
    else
      Some(offset)
  }

  /** A physical transfer, relative to the start of the partition. */
  datatype Transfer = Transfer(offset: u64, count: u64)

  /** The read as written: offset normalisation, then
      `num_bytes > partition_size - offset` in uint64_t arithmetic decides
      between the requested length and the wrapped difference. Wherever the
      normalised offset lies inside the partition it agrees with ReadPlan. */
  function ReadPlanAsWritten(offset: i64, numBytes: u64, size: u64): (r: Option<Transfer>)
    ensures r.None? <==> NormaliseOffset(offset, size).None?
    ensures r.Some? ==> r.value.offset == NormaliseOffset(offset, size).value && r.value.count <= numBytes
    ensures NormaliseOffset(offset, size).Some? && NormaliseOffset(offset, size).value <= size ==>
              r == ReadPlan(offset, numBytes, size)
  {
    match NormaliseOffset(offset, size)
    case None => None
    case Some(off) =>
      var available := Wrap64(size - off);
      Some(Transfer(off, if numBytes > available then available else numBytes))
  }

  /** The read with the range check the code leaves out. It is refused
      exactly when the normalised offset lies outside [0, size]; otherwise
      it starts at the normalised offset and transfers either everything
      asked for or, if that would run past the end, exactly up to the end. */
  function ReadPlan(offset: i64, numBytes: u64, size: u64): (r: Option<Transfer>)
    ensures r.None? <==> NormaliseOffset(offset, size).None? || NormaliseOffset(offset, size).value > size
    ensures r.Some? ==> r.value.offset == NormaliseOffset(offset, size).value
    ensures r.Some? ==> r.value.offset + r.value.count <= size && r.value.count <= numBytes
    ensures r.Some? ==> r.value.count == numBytes || r.value.offset + r.value.count == size
  {
    match NormaliseOffset(offset, size)
    case None => None
    case Some(off) =>
      if off > size then None
      else Some(Transfer(off, if numBytes > size - off then size - off else numBytes))
  }

  /** The write as written: after offset normalisation it is refused only
      when `num_bytes > partition_size - offset` in uint64_t arithmetic.
      Wherever the normalised offset lies inside the partition it agrees
      with WritePlan. */
  function WritePlanAsWritten(offset: i64, numBytes: u64, size: u64): (r: Option<u64>)
    ensures r.Some? ==> NormaliseOffset(offset, size) == Some(r.value)
    ensures NormaliseOffset(offset, size).Some? && NormaliseOffset(offset, size).value <= size ==>
              r == WritePlan(offset, numBytes, size)
  {
    match NormaliseOffset(offset, size)
    case None => None
    case Some(off) =>
      if numBytes > Wrap64(size - off) then None else Some(off)
  }

  /** The write with the range check the code leaves out. It is accepted
      exactly when all `numBytes` bytes from the normalised offset lie
      inside the partition; there is no partial write. */
  function WritePlan(offset: i64, numBytes: u64, size: u64): (r: Option<u64>)
    ensures r.Some? <==> NormaliseOffset(offset, size).Some? &&
                         NormaliseOffset(offset, size).value + numBytes <= size
    ensures r.Some? ==> r.value == NormaliseOffset(offset, size).value
  {
    match NormaliseOffset(offset, size)
    case None => None
    case Some(off) =>
      if off > size || numBytes > size - off then None else Some(off)
  }

  /** As written, a read at a non-negative offset past the partition end is
      accepted in full: every byte it transfers lies outside the partition.
      (size 512, offset 1024, 16 bytes: 16 bytes from partition offset 1024.) */
  lemma ReadPastEndAsWritten(offset: i64, numBytes: u64, size: u64)
    requires size < offset && numBytes < TWO_TO_THE_63
    ensures ReadPlanAsWritten(offset, numBytes, size) == Some(Transfer(offset, numBytes))
    ensures ReadPlan(offset, numBytes, size).None?
  {
    assert Wrap64(size - offset) == size - offset + TWO_TO_THE_64;
  }

  /** As written, a write at a non-negative offset past the partition end is
      accepted: it changes `numBytes` bytes that lie outside the partition,
      where ReadPlan's partner WritePlan refuses it. */
  lemma WritePastEndAsWritten(offset: i64, numBytes: u64, size: u64)
    requires size < offset && numBytes < TWO_TO_THE_63
    ensures WritePlanAsWritten(offset, numBytes, size) == Some(offset)
    ensures WritePlan(offset, numBytes, size).None?
  {
    assert Wrap64(size - offset) == size - offset + TWO_TO_THE_64;
  }

  /** `offset = -k` with k <= size normalises to size - k, even when that
      does not fit an int64_t, and then behaves for both operations exactly
      as the non-negative offset `size - k` would. */
  lemma NegativeOffsetFromEnd(k: int, numBytes: u64, size: u64)
    requires 0 < k <= TWO_TO_THE_63 && k <= size
    ensures NormaliseOffset(-k, size) == Some(size - k)
    ensures size - k < TWO_TO_THE_63 ==>
              ReadPlan(-k, numBytes, size) == ReadPlan(size - k, numBytes, size) &&
              WritePlan(-k, numBytes, size) == WritePlan(size - k, numBytes, size)
  {
  }

  /** `offset = -k` with k > size is refused by both operations, as written
      and corrected, before any disk access. */
  lemma NegativeOffsetBeforeStart(k: int, numBytes: u64, size: u64)
    requires 0 < k <= TWO_TO_THE_63 && k > size
    ensures ReadPlanAsWritten(-k, numBytes, size).None? && ReadPlan(-k, numBytes, size).None?
    ensures WritePlanAsWritten(-k, numBytes, size).None? && WritePlan(-k, numBytes, size).None?
  {
  }

  /** A zero-length request at an offset inside [0, size] succeeds and
      transfers nothing, for both operations; the offset equal to the size
      is included. */
  lemma ZeroLengthRequest(offset: i64, size: u64)
    requires NormaliseOffset(offset, size).Some? && NormaliseOffset(offset, size).value <= size
    ensures ReadPlan(offset, 0, size) == Some(Transfer(NormaliseOffset(offset, size).value, 0))
    ensures WritePlan(offset, 0, size) == Some(NormaliseOffset(offset, size).value)
  {
  }

  /** The asymmetry between the two operations: a write is accepted exactly
      when the read of the same range would be complete (not clamped), and
      then both start at the same offset. */
  lemma WriteAcceptedIffReadComplete(offset: i64, numBytes: u64, size: u64)
    ensures WritePlan(offset, numBytes, size).Some? <==>
              ReadPlan(offset, numBytes, size).Some? && ReadPlan(offset, numBytes, size).value.count == numBytes
    ensures WritePlan(offset, numBytes, size).Some? ==>
              WritePlan(offset, numBytes, size).value == ReadPlan(offset, numBytes, size).value.offset
  {
  }
}
