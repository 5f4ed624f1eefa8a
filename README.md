# UEFI AvbOps adapter, modelled in Dafny

libavb's verified-boot engine reaches storage and platform trust state
through a table of callbacks, `AvbOps`. `avb/libavb/uefi_avb_ops.c` fills
that table for a UEFI boot loader. This project models the callbacks that
carry logic and proves what they do:

- `read_from_partition` / `write_to_partition`. They compute the partition
  size from the GPT entry, normalise a partition-relative offset (negative
  means "from the end"), clamp a read at the partition end, refuse a write
  that would run past it, and move bytes between a caller buffer and the
  disk. The methods follow the code as written, including its missing check
  of an offset past the end (see Findings).
- `validate_vbmeta_public_key`. It decides whether a presented public key
  is trusted by a memcmp against the key linked into the image.
- `read_rollback_index` / `write_rollback_index`, the stubs.
- `set_hex` / `get_unique_guid_for_partition`. They write a partition's
  unique GUID as 36 lowercase hex digits and hyphens plus a NUL: the text
  form of section 3 of RFC 4122 applied to the byte layout of Appendix A of
  the UEFI specification, where the first three fields are stored
  little-endian.

The modules:

- `AvbIo` (`avb_io.dfy`): the AvbIOResult codes, `Option`, and the C
  integer types `uint32_t`, `uint64_t` and `int64_t` with their
  conversions. `size_t` is `uint64_t`, as on a 64-bit UEFI target.
- `PartitionRange` (`partition_range.dfy`): the pure size, offset and
  clamp arithmetic. It has a version of the checks as the code is written,
  which the adapter's methods use, and a corrected version (see Findings).
- `KeyTrust` (`key_trust.dfy`): memcmp and the trust rule.
- `GuidFormat` (`guid_format.dfy`):
  - set_hex as an imperative method on a `char` array;
  - the GUID text and the exact position of every character in it;
  - a reference definition through the five little- and big-endian
    fields;
  - a parser that reads the text back.
- `UefiAvbOps` (`uefi_avb_ops.dfy`): the adapter as a class.
  - The disk is an `array<bv8>`.
  - The GPT lookup is a map from label to the partition's first and last
    LBA, the media block size and the unique GUID.
  - The embedded key is a byte sequence.
  - Each callback is a method whose contract states the result code and
    the complete new state of the buffer or disk on every path.

Collaborators outside the core become inputs:

- The failure of `stra_to_str` is the flag `labelAllocFails`.
- An error reported by ReadDisk or WriteDisk is the flag `diskFault`. A
  transfer also fails when it runs off the end of the disk array.
- A NULL key pointer is `None`.

The code only asserts that a partition name is not NULL (lines 51, 117
and 240 of `avb/libavb/uefi_avb_ops.c`); an empty name is a label that the
lookup does not find.

## Model

| member | source | states |
|---|---|---|
| `AvbIo.ToUint64` | avb/libavb/uefi_avb_ops.c:83-84 | An int64_t operand converted to uint64_t is unchanged when non-negative and is raised by 2^64 when negative. |
| `AvbIo.ToInt64` | avb/libavb/uefi_avb_ops.c:77 | Storing a uint64_t in the int64_t offset and reading it back as uint64_t returns the stored value. The stored value is unchanged exactly when it is below 2^63. |
| `PartitionRange.PartitionSize` | avb/libavb/uefi_avb_ops.c:68-70 | The size is the exact partition byte count (LBA count times block size) whenever the entry is well formed and the product fits in 64 bits. The read and write paths share this one definition. |
| `PartitionRange.StartByte` | avb/libavb/uefi_avb_ops.c:93-94 | The physical address is starting_lba * BlockSize + offset whenever that fits in 64 bits. The read and write paths share this one definition. |
| `PartitionRange.NormaliseOffset` | avb/libavb/uefi_avb_ops.c:72-78 | A non-negative offset is kept. A negative offset is refused exactly when its magnitude exceeds the size; otherwise it becomes size + offset. |
| `PartitionRange.ReadPlanAsWritten` | avb/libavb/uefi_avb_ops.c:72-86 | The read as coded. It is refused only by the negative-offset check. It never asks for more than num_bytes. It agrees with ReadPlan whenever the normalised offset is at most the size. |
| `PartitionRange.ReadPlan` | avb/libavb/uefi_avb_ops.c:72-86 | The corrected read. It is refused exactly when the normalised offset lies outside [0, size]. Otherwise it starts there and transfers min(num_bytes, size - offset): it never goes past the end, and it is complete or ends exactly at the end. |
| `PartitionRange.WritePlanAsWritten` | avb/libavb/uefi_avb_ops.c:136-150 | The write as coded. Any plan it accepts starts at the normalised offset. It agrees with WritePlan whenever the normalised offset is at most the size. |
| `PartitionRange.WritePlan` | avb/libavb/uefi_avb_ops.c:136-150 | The corrected write. It is accepted exactly when all num_bytes bytes from the normalised offset lie inside the partition, and then it starts at that offset. |
| `PartitionRange.ReadPastEndAsWritten` | avb/libavb/uefi_avb_ops.c:83-86 | As coded, a read at a non-negative offset past the end of at most 2^63 - 1 bytes is accepted in full, unclamped. The corrected plan refuses it. |
| `PartitionRange.WritePastEndAsWritten` | avb/libavb/uefi_avb_ops.c:147-150 | As coded, a write at a non-negative offset past the end of at most 2^63 - 1 bytes passes the boundary check. The corrected plan refuses it. |
| `PartitionRange.NegativeOffsetFromEnd` | avb/libavb/uefi_avb_ops.c:72-78 | offset = -k with k <= size normalises to size - k. It then reads and writes exactly as offset size - k does. |
| `PartitionRange.NegativeOffsetBeforeStart` | avb/libavb/uefi_avb_ops.c:136-142 | offset = -k with k > size is refused by both operations, as coded and corrected. |
| `PartitionRange.ZeroLengthRequest` | avb/libavb/uefi_avb_ops.c:80-86 | A zero-length request at an offset in [0, size] is accepted by both operations and transfers nothing. The offset equal to the size is included. |
| `PartitionRange.WriteAcceptedIffReadComplete` | avb/libavb/uefi_avb_ops.c:144-150 | The read/write asymmetry. A write is accepted exactly when the read of the same range would not be clamped, and both then start at the same offset. |
| `KeyTrust.Memcmp` | avb/libavb/uefi_avb_ops.c:188 | memcmp over n bytes, compared as unsigned: a negative result means some index i has equal bytes before it and a smaller byte of the first sequence at i; a positive one, a larger byte there. |
| `KeyTrust.IsTrustedKey` | avb/libavb/uefi_avb_ops.c:183-188 | The trust rule: the key is non-empty, no longer than the embedded key, and equal to that many of its leading bytes. Its consequences are the lemmas below. |
| `KeyTrust.MemcmpZeroIffEqual` | avb/libavb/uefi_avb_ops.c:188 | memcmp over n bytes returns 0 exactly when the first n bytes agree (both directions, by induction). |
| `KeyTrust.TrustedIffBytewiseEqual` | avb/libavb/uefi_avb_ops.c:188 | The trust rule is equivalent to: the length is between 1 and the embedded key's length, and every byte equals the embedded key's byte at the same index. |
| `KeyTrust.EmbeddedKeyTrusted` | avb/libavb/uefi_avb_ops.c:188 | Presenting the embedded key itself is trusted. |
| `KeyTrust.ProperPrefixTrusted` | avb/libavb/uefi_avb_ops.c:188 | Every proper non-empty prefix of the embedded key is trusted too. |
| `KeyTrust.MutatedKeyUntrusted` | avb/libavb/uefi_avb_ops.c:188 | Changing any single byte of a trusted key makes it untrusted. |
| `KeyTrust.WrongLengthUntrusted` | avb/libavb/uefi_avb_ops.c:183-188 | A key that is empty, or longer than the embedded key, is never trusted. |
| `GuidFormat.SetHex` | avb/libavb/uefi_avb_ops.c:222-226 | set_hex writes the two digits of the byte at the given index, high nibble first, and writes nothing else. |
| `GuidFormat.HexPair` | avb/libavb/uefi_avb_ops.c:222-226 | The two characters set_hex writes for a byte: the table digit of the high nibble, then of the low nibble. ParseHexPairOfHexPair shows they are hex digits that parse back to the byte. |
| `GuidFormat.PutPair` | avb/libavb/uefi_avb_ops.c:222-226 | The text after set_hex, as a value: the length is unchanged; PutPairContents states what it holds. |
| `GuidFormat.PutPairContents` | avb/libavb/uefi_avb_ops.c:222-226 | After set_hex the two characters read back as the byte's digit pair, and every other character is unchanged. |
| `GuidFormat.GuidString` | avb/libavb/uefi_avb_ops.c:260-284 | The 37 characters the formatter leaves: hyphens at 8, 13, 18 and 23 and the NUL at 36. GuidStringPairs and GuidStringFields state the digits. |
| `GuidFormat.GuidStringPairs` | avb/libavb/uefi_avb_ops.c:264-284 | In the 37-character text, stored bytes 3,2,1,0 / 5,4 / 7,6 / 8,9 / 10..15 sit as digit pairs at 0,2,4,6 / 9,11 / 14,16 / 19,21 / 24..34. Hyphens are at 8, 13, 18 and 23, and the NUL at 36. |
| `GuidFormat.GuidStringLayout` | avb/libavb/uefi_avb_ops.c:264-284 | The same layout in general form: the j-th rendered byte is stored byte RenderedByte(j), and its digits sit at DigitPosition(j). |
| `GuidFormat.RendersGuidIffGuidString` | avb/libavb/uefi_avb_ops.c:264-284 | A string has that layout exactly when it is the formatter's output, so the layout pins down every character. |
| `GuidFormat.RenderedByteSelfInverse` | avb/libavb/uefi_avb_ops.c:264-283 | The byte-order permutation of the five groups is its own inverse. |
| `GuidFormat.TimeLowWrites` | avb/libavb/uefi_avb_ops.c:264-268 | The time-low writes (bytes 3, 2, 1, 0 at 0, 2, 4, 6 and the hyphen at 8) as a value; the buffer keeps its length. TimeLowWritesExtend states the result. |
| `GuidFormat.TimeMidWrites` | avb/libavb/uefi_avb_ops.c:269-271 | The time-mid writes (bytes 5, 4 at 9, 11 and the hyphen at 13); the buffer keeps its length. |
| `GuidFormat.TimeHighWrites` | avb/libavb/uefi_avb_ops.c:272-274 | The time-high writes (bytes 7, 6 at 14, 16 and the hyphen at 18); the buffer keeps its length. |
| `GuidFormat.ClockSeqWrites` | avb/libavb/uefi_avb_ops.c:275-277 | The clock-sequence writes (bytes 8, 9 at 19, 21 and the hyphen at 23); the buffer keeps its length. |
| `GuidFormat.NodeWrites` | avb/libavb/uefi_avb_ops.c:278-284 | The node writes (bytes 10..15 at 24..34 and the NUL at 36); the buffer keeps its length. |
| `GuidFormat.GuidWrites` | avb/libavb/uefi_avb_ops.c:264-284 | All five field writes in the code's order; the buffer keeps its length. GuidWritesRender states the result. |
| `GuidFormat.TimeLowWritesExtend` | avb/libavb/uefi_avb_ops.c:264-268 | The time-low writes finish characters 0..8 of the text and leave the buffer past 37 alone. |
| `GuidFormat.TimeMidWritesExtend` | avb/libavb/uefi_avb_ops.c:269-271 | With 0..8 finished, the time-mid writes finish 0..13. |
| `GuidFormat.TimeHighWritesExtend` | avb/libavb/uefi_avb_ops.c:272-274 | With 0..13 finished, the time-high writes finish 0..18. |
| `GuidFormat.ClockSeqWritesExtend` | avb/libavb/uefi_avb_ops.c:275-277 | With 0..18 finished, the clock-sequence writes finish 0..23. |
| `GuidFormat.NodeWritesExtend` | avb/libavb/uefi_avb_ops.c:278-284 | With 0..23 finished, the node writes and the NUL finish all 37 characters. |
| `GuidFormat.GuidWritesPlace` | avb/libavb/uefi_avb_ops.c:264-284 | The writes, in the code's order, put any text with the pairs, hyphens and NUL of the GUID into the first 37 characters, and nothing past them changes. |
| `GuidFormat.GuidWritesRender` | avb/libavb/uefi_avb_ops.c:260-284 | Those writes leave exactly the formatter's output in the first 37 characters. |
| `GuidFormat.LittleEndianReversed` | avb/libavb/uefi_avb_ops.c:261-274 | Bytes stored least significant first have the value of the reversed bytes read most significant first. |
| `GuidFormat.HexNumberBigEndian` | avb/libavb/uefi_avb_ops.c:222-226 | The set_hex digits of a run of bytes are the fixed-width hex number of its big-endian value. |
| `GuidFormat.LittleEndianDigits` | avb/libavb/uefi_avb_ops.c:264-274 | The reversed set_hex digits of a little-endian field are the fixed-width hex number of its value. |
| `GuidFormat.GuidStringFields` | avb/libavb/uefi_avb_ops.c:260-284 | Reference definition (the text form of section 3 of RFC 4122 over the UEFI byte layout). The text is the five fields as fixed-width hex, joined by hyphens: time-low, time-mid and time-high read little-endian, clock-seq and node read big-endian. |
| `GuidFormat.GuidStringExample` | avb/libavb/uefi_avb_ops.c:264-284 | Stored bytes 33 22 11 00 55 44 77 66 88 99 aa bb cc dd ee ff render as 00112233-4455-6677-8899-aabbccddeeff followed by NUL. |
| `GuidFormat.HexDigitsAreHex` | avb/libavb/uefi_avb_ops.c:223 | Every entry of set_hex's table is a lowercase hex digit. |
| `GuidFormat.HexNibble` | avb/libavb/uefi_avb_ops.c:223-225 | Inverse of the table lookup: a hex digit's value is below 16 and indexes that digit in the table. |
| `GuidFormat.ParseHexPair` | avb/libavb/uefi_avb_ops.c:222-226 | Inverse of set_hex: the byte it returns is rendered by set_hex as exactly the two given digits. |
| `GuidFormat.ParseHexPairOfHexPair` | avb/libavb/uefi_avb_ops.c:222-226 | set_hex emits only lowercase hex digits, and parsing them recovers the byte. |
| `GuidFormat.ParseGuidString` | avb/libavb/uefi_avb_ops.c:264-284 | Parsing succeeds exactly on texts with the formatter's shape. |
| `GuidFormat.RenderingIsGuidString` | avb/libavb/uefi_avb_ops.c:264-284 | Any rendering of a GUID has that shape. |
| `GuidFormat.GuidStringIsGuidString` | avb/libavb/uefi_avb_ops.c:264-284 | The formatter's output has that shape: hyphens, NUL, and lowercase hex digits everywhere else. |
| `GuidFormat.ParseGuidStringSound` | avb/libavb/uefi_avb_ops.c:264-284 | Every text of that shape is the formatter's output for the GUID parsed from it. |
| `GuidFormat.ParseRendering` | avb/libavb/uefi_avb_ops.c:264-284 | Any rendering of a GUID parses back to that GUID. |
| `GuidFormat.ParseGuidStringRoundTrip` | avb/libavb/uefi_avb_ops.c:264-284 | The formatter's output parses back to the GUID it came from. |
| `GuidFormat.GuidStringInjective` | avb/libavb/uefi_avb_ops.c:264-284 | Different GUIDs produce different text. |
| `UefiAvbOps.SizeOf` | avb/libavb/uefi_avb_ops.c:68-70 | partition_size of a GPT entry, as PartitionSize computes it. |
| `UefiAvbOps.AddressOf` | avb/libavb/uefi_avb_ops.c:93-94 | The disk address handed to ReadDisk and WriteDisk for a partition offset, as StartByte computes it. |
| `UefiAvbOps.PastEndTransferOutsidePartition` | avb/libavb/uefi_avb_ops.c:72-96 | As coded, a read or write at a non-negative offset past the partition end goes ahead in full, and its disk address lies beyond the partition's last byte (when addresses fit in 64 bits); the corrected plans refuse it. |
| `UefiAvbOps.UefiAvbOps.TransferSucceeds` | avb/libavb/uefi_avb_ops.c:88-101 | When ReadDisk or WriteDisk succeeds: no device error and the range lies on the disk. |
| `UefiAvbOps.UefiAvbOps.ReadFromPartition` | avb/libavb/uefi_avb_ops.c:39-104 | The read as coded. Label allocation failure gives OOM and a failed lookup gives NO_SUCH_PARTITION; both leave *out_num_read and buf alone. A negative offset before the start gives RANGE_OUTSIDE_PARTITION with nothing changed. A failed transfer gives IO with *out_num_read = 0. Otherwise the result is OK: the count of the as-written plan is reported (clamped at the end for an offset inside the partition, unclamped past it), buf's prefix holds exactly those bytes from the disk address, and the rest of buf is unchanged. For an offset past the end those bytes lie beyond the partition. |
| `UefiAvbOps.UefiAvbOps.WriteToPartition` | avb/libavb/uefi_avb_ops.c:106-168 | The write as coded. Every error leaves the disk unchanged. The error codes are OOM, NO_SUCH_PARTITION, RANGE_OUTSIDE_PARTITION (an offset before the start, or num_bytes above the uint64_t difference size - offset; no partial write) and IO. On OK, exactly num_bytes disk bytes from the disk address of the normalised offset are replaced by buf and nothing else changes. For an offset past the end those bytes lie beyond the partition. |
| `UefiAvbOps.UefiAvbOps.ValidateVbmetaPublicKey` | avb/libavb/uefi_avb_ops.c:171-195 | A missing or empty key gives IO, anything else OK. The flag is true exactly when a key is present and trusted by the rule (so it is false on every other path), and the metadata plays no part. |
| `UefiAvbOps.UefiAvbOps.ReadRollbackIndex` | avb/libavb/uefi_avb_ops.c:197-206 | Returns OK and index 0 for every slot. |
| `UefiAvbOps.UefiAvbOps.WriteRollbackIndex` | avb/libavb/uefi_avb_ops.c:208-214 | Returns OK for every slot and index, and changes no state. |
| `UefiAvbOps.UefiAvbOps.GetUniqueGuidForPartition` | avb/libavb/uefi_avb_ops.c:228-286 | OOM, a failed lookup (IO, not NO_SUCH_PARTITION) and a buffer smaller than 37 (IO) all leave the buffer untouched. Otherwise the result is OK, the first 37 characters are exactly the formatter's output for the partition's unique GUID, and the rest of the buffer is unchanged. |

## Left out

- `read_is_device_unlocked` (avb/libavb/uefi_avb_ops.c:216-220) only
  delegates to a platform predicate that is not part of this model.
- `uefi_avb_ops_new` / `uefi_avb_ops_free` (avb/libavb/uefi_avb_ops.c:288-320)
  allocate the table and wire function pointers; there is no logic to prove.
  The class constructor fixes the disk, the partition map and the embedded key.
- The firmware's DiskIo and BlockIo protocols, `gpt_get_partition_by_label`
  and `gpt_get_root_disk` are not part of this model.
  - The disk is a byte array.
  - The lookup is a map on the label.
  - A device error is the `diskFault` input.
  - On a failed transfer the model leaves the buffer (read) or the disk
    (write) unchanged. Real firmware may have moved some bytes before
    failing.
- `stra_to_str`: the conversion of the label to UCS-2 is not modelled, and
  labels are compared as strings. Its allocation failure is the
  `labelAllocFails` input.
- Logging (`error`, `avb_error`, `avb_debug`) is left out. The `avb_assert`
  null checks are implied by Dafny's non-null array types.
- NULL `out_key_is_trusted` and `out_rollback_index`: the code then skips
  the store. The methods always return the value, and the caller may
  ignore it.
- `PartitionRange.NormaliseOffset`: for INT64_MIN the C negation is
  undefined behaviour. The model takes its two's-complement result as a
  uint64_t, 2^63, and so refuses such an offset unless the partition is at
  least 2^63 bytes.
- `UefiAvbOps.UefiAvbOps.ValidateVbmetaPublicKey`: the key and its length
  are one byte sequence, so a non-NULL pointer with a length larger than
  the memory behind it cannot be expressed.

## Findings

| source | as written | input that shows it | evidently intended | confidence | as-written member | corrected member |
|---|---|---|---|---|---|---|
| avb/libavb/uefi_avb_ops.c:72-86 | Only a negative offset is range-checked. For a non-negative offset past the end, `partition_size - offset_from_partition` wraps as uint64_t, so the clamp never fires and the whole request is read from beyond the partition. | partition_size 512, offset_from_partition 1024, num_bytes 16: 16 bytes read from partition offset 1024. | A normalised offset outside [0, partition_size] returns AVB_IO_RESULT_ERROR_RANGE_OUTSIDE_PARTITION, as for a negative offset before the start. | high (not executed) | `UefiAvbOps.PastEndTransferOutsidePartition` | `PartitionRange.ReadPlan` |
| avb/libavb/uefi_avb_ops.c:136-150 | The same wrap in the boundary check: a write at a non-negative offset past the end passes `num_bytes > partition_size - offset_from_partition` and is sent to WriteDisk outside the partition. | partition_size 512, offset_from_partition 1024, num_bytes 16: write accepted at partition offset 1024. | Refused with AVB_IO_RESULT_ERROR_RANGE_OUTSIDE_PARTITION; no byte outside the partition changes. | high (not executed) | `PartitionRange.WritePastEndAsWritten` | `PartitionRange.WritePlan` |

`UefiAvbOps.UefiAvbOps.ReadFromPartition` and
`UefiAvbOps.UefiAvbOps.WriteToPartition` model both lines as written: they
follow `ReadPlanAsWritten` and `WritePlanAsWritten`, and their contracts
state where the bytes of a transfer past the end go.
`PartitionRange.ReadPlan` and `PartitionRange.WritePlan` are the corrected
checks. The as-written plans agree with them whenever the normalised offset
is at most the partition size.
