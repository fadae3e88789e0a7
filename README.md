# Changed-block tracking in blktap: the dirty-bitmap driver and the identity cipher

This project models the `tapdisk_log` driver of blktap. The driver sits on top of a virtual
disk and records, in a memory-mapped log file, which tracking blocks have been written. The
mapped log is a metadata header (`struct cbt_log_metadata`) followed by a bitmap packed into
64-bit words. Bit `nr` is bit `nr % 64` of word `nr / 64`, least significant bit first. On
every write the driver works out the block of the request's first sector and the block of its
last sector. It sets every bit from the first to the last, then forwards the request
unchanged. Reads are forwarded untouched. The driver has no parent disk: `get_parent_id`
always fails with `-EINVAL` and `validate_parent` always succeeds.

The project also models the identity cipher pair. Each function copies `nbytes` from the
source buffer to the destination buffer, unless the two are the same buffer. Both always
return 0, so encrypting and then decrypting gives back the original bytes.

Modules:

- `CbtFormat` (`cbt_format.dfy`): the C integer types (`u64`, `u32`, `i32`) and wrap-around
  arithmetic. `Format` holds the constants that come from headers outside this model: the
  sector size, the tracking-block size, the header length and `bitmap_size`. Only positivity
  of the two sizes is assumed. This module also holds `get_bit_for_sec` and the mapping
  length.
- `Bitmap` (`bitmap.dfy`): `test_bit` and `set_bit` on `seq<bv64>` and on an `array<bv64>`.
  `BitsOf` abstracts the words to one flag per tracking block. `SetRun` gives the flags after
  the rounds of `bitmap_set`'s loop, one flag per round, and `SetRunAt` says per flag what
  that run leaves.
- `BlockLog` (`block_log.dfy`): the class `LogDriver` (the driver's private data together with
  the mapped region, which is given as a header array and a word array). It also holds
  `bitmap_init`, `bitmap_free`, `bitmap_set`, the queue hooks and the parent hooks, plus the
  lemmas that tie a write's sector range to the bits it sets.
- `Identity` (`identity.dfy`): `identity_encrypt` and `identity_decrypt` over `array<bv8>`,
  and the round trips.

In three places the model follows the code where a reader might expect otherwise:

- Bit access is not bounds-checked in the code. Here, being in bounds is a precondition.
- A failed `mmap` is not detected. `BitmapInit` and `Open` model the code as written: they
  report success and keep `MAP_FAILED` as the bitmap pointer (see Findings).
- The sector-to-block mapping multiplies by `SECTOR_SIZE` in `uint64_t` and then divides by
  `CBT_BLOCK_SIZE`. It does not divide by the block-to-sector ratio.

## Model

| member | source | states |
|---|---|---|
| `CbtFormat.GetBitForSec` | blktap-master/drivers/block-log.c:73-78 | when `sector * SECTOR_SIZE` does not overflow uint64, the result is `(sector * SECTOR_SIZE) / CBT_BLOCK_SIZE`, i.e. the block whose byte range contains the sector's offset |
| `CbtFormat.GetBitForSecMonotone` | blktap-master/drivers/block-log.c:73-78 | the sector-to-block mapping is monotone non-decreasing while the byte offset does not wrap |
| `CbtFormat.GetBitForSecStep` | blktap-master/drivers/block-log.c:73-78 | with blocks at least one sector long, the next sector's block is the same block or the next one |
| `CbtFormat.MapLength` | blktap-master/drivers/block-log.c:95 | the mapping length is `bitmap_size(size * SECTOR_SIZE) + sizeof(struct cbt_log_metadata)` when nothing wraps, computed in uint64 |
| `CbtFormat.LastOfRunNoWrap` | blktap-master/drivers/block-log.c:176 | `sec + secs - 1` in uint64 equals the true last sector whenever that fits, even when `sec + secs` wraps to 0 |
| `Bitmap.TestBit` | blktap-master/drivers/block-log.c:63-66 | `test_bit` returns 0 or 1, and returns 1 exactly when flag `nr` (with `nr` converted to unsigned long) of the bitmap is set |
| `Bitmap.SetBitWords` | blktap-master/drivers/block-log.c:68-71 | `set_bit` changes no word count; its effect on bits is given by the lemmas below |
| `Bitmap.SetBitEffect` | blktap-master/drivers/block-log.c:60-71 | after `set_bit(nr)` the bitmap's flags are the old flags with flag `nr` set: every other bit keeps its value |
| `Bitmap.SetThenTest` | blktap-master/drivers/block-log.c:63-71 | right after `set_bit(nr)`, `test_bit(nr)` returns 1 |
| `Bitmap.SetBitKeepsOtherBits` | blktap-master/drivers/block-log.c:63-71 | setting bit `nr` leaves `test_bit` of every other bit unchanged |
| `Bitmap.SetBitNeverClears` | blktap-master/drivers/block-log.c:68-71 | `set_bit` never clears a bit |
| `Bitmap.SetBitIdempotent` | blktap-master/drivers/block-log.c:68-71 | applying `set_bit(nr)` twice leaves the same words as applying it once |
| `Bitmap.SetBit` | blktap-master/drivers/block-log.c:68-71 | in place on the mapped words: word `nr / 64` is ORed with `1UL << (nr % 64)`, and the flags become the old flags with flag `nr` set; nothing but the words array is modified |
| `Bitmap.SetBitAt` | blktap-master/drivers/block-log.c:60-71 | after `set_bit(nr)`, flag `j` is set exactly when `j` is `nr` or flag `j` was set before |
| `Bitmap.SetRunAt` | blktap-master/drivers/block-log.c:127-135 | after `count` rounds of `bitmap_set`'s loop from `block`, flag `j` is set exactly when it was set before or `block <= j < block + count` |
| `Bitmap.SetRunNeverClears` | blktap-master/drivers/block-log.c:127-135 | `bitmap_set` never clears a bit |
| `Bitmap.RunThenTest` | blktap-master/drivers/block-log.c:127-135 | once the words hold the run that `bitmap_set` sets, `test_bit` returns 1 for every bit of the run |
| `Bitmap.SetRunNone` | blktap-master/drivers/block-log.c:131 | a run of zero or fewer bits leaves the flags unchanged |
| `Bitmap.SetRunIdempotent` | blktap-master/drivers/block-log.c:127-135 | setting the same run twice equals setting it once |
| `BlockLog.LogDriver.BitmapSet` | blktap-master/drivers/block-log.c:127-135 | the flags become the old flags after the `count` rounds of the loop (by `SetRunAt`: bits `block .. block+count-1` set and all others unchanged, nothing changed when `count <= 0`); only the words are modified; returns 0 |
| `BlockLog.WriteBlockRange` | blktap-master/drivers/block-log.c:173-176 | for a write of at least one sector, the uint64 computation gives the blocks of the first and last sector, and first <= last |
| `BlockLog.BlockCount` | blktap-master/drivers/block-log.c:178 | `(last_bit - start_bit) + 1`, passed as int, is the number of blocks in the range when that fits in an int |
| `BlockLog.WriteCoversEverySector` | blktap-master/drivers/block-log.c:170-178 | every sector of the write lies in a block of the marked range |
| `BlockLog.NoBlockSkipped` | blktap-master/drivers/block-log.c:73-78 | in the blocks of consecutive sectors, each the same as or one past the one before, every block between the first and the last occurs |
| `BlockLog.BlockHasWrittenSector` | blktap-master/drivers/block-log.c:170-178 | every block from that of sector `sec` to that of sector `sec + n - 1` holds one of those `n` sectors (blocks at least one sector long) |
| `BlockLog.WriteRangeIsTight` | blktap-master/drivers/block-log.c:170-178 | every block of the marked range holds some sector of the write (blocks at least one sector long) |
| `BlockLog.WriteDirtiesExactlyWrittenBlocks` | blktap-master/drivers/block-log.c:170-178 | after the write, a block's flag is set exactly when it was set before or some written sector starts in that block (blocks at least one sector long) |
| `CbtFormat.SectorWithinBlock` | blktap-master/drivers/block-log.c:73-78 | when the block size is a whole number of sectors, every byte of a sector lies in the block `get_bit_for_sec` gives for it |
| `BlockLog.LogDriver.QueueWrite` | blktap-master/drivers/block-log.c:170-180 | forwards the request unmodified and leaves the flags equal to the old flags with exactly the blocks `get_bit_for_sec(sec) .. get_bit_for_sec(sec+secs-1)` set, at least one of them; only the bitmap words are modified |
| `BlockLog.LogDriver.QueueRead` | blktap-master/drivers/block-log.c:165-168 | forwards the request unmodified; it modifies nothing, so the bitmap is untouched |
| `BlockLog.LogDriver.GetParentId` | blktap-master/drivers/block-log.c:182-185 | returns `-EINVAL` for every argument |
| `BlockLog.LogDriver.ValidateParent` | blktap-master/drivers/block-log.c:187-191 | returns 0 for every parent and flags |
| `BlockLog.LogDriver.BitmapInit` | blktap-master/drivers/block-log.c:80-110 | as written: returns -1 with nothing mapped when the file does not open, otherwise 0; a successful mapping is recorded as the bitmap, a failed one leaves `MAP_FAILED` as the bitmap pointer; the mapping length is computed from the recorded size |
| `BlockLog.LogDriver.Open` | blktap-master/drivers/block-log.c:148-163 | as written: records `size` from the disk info, then maps the log with `BitmapInit`; it fails, closes and returns -1 only when the file does not open, and comes up with `MAP_FAILED` when `mmap` fails |
| `BlockLog.LogDriver.BitmapInitChecked` | blktap-master/drivers/block-log.c:80-110 | with the mmap test corrected: returns 0 and records the mapping exactly when the file opened and the mapping succeeded; otherwise returns -1 with nothing mapped and no `MAP_FAILED` pointer |
| `BlockLog.LogDriver.OpenChecked` | blktap-master/drivers/block-log.c:148-163 | `tdlog_open` over `BitmapInitChecked`: on any failure it closes and returns -1 with nothing mapped |
| `BlockLog.LogDriver.Close` | blktap-master/drivers/block-log.c:112-125 | returns 0; calls `munmap` whenever the bitmap pointer is set, `MAP_FAILED` included, with a length recomputed from `size` that equals the length asked for at open |
| `BlockLog.InitStatusAsWritten` | blktap-master/drivers/block-log.c:100-104 | as written, the status depends only on whether the file opened; the mmap outcome is never noticed |
| `BlockLog.MapFailureGoesUnnoticed` | blktap-master/drivers/block-log.c:101 | with the file opened and mmap returning MAP_FAILED, the as-written status is 0 |
| `BlockLog.InitStatus` | blktap-master/drivers/block-log.c:100-104 | the corrected status: 0 exactly when the file opened and the mapping succeeded, otherwise -1 |
| `Identity.MemCopy` | blktap-master/drivers/identity/identity.c:10 | the first `n` bytes of `dst` become those of `src`; the rest of `dst` is unchanged |
| `Identity.Encrypt` | blktap-master/drivers/identity/identity.c:7-13 | returns 0; `dst_buf[0..nbytes)` equals the old `src_buf[0..nbytes)`, the bytes past `nbytes` and `src_buf` are untouched, and an aliased buffer is unchanged; the cipher context and sector play no part |
| `Identity.Decrypt` | blktap-master/drivers/identity/identity.c:15-21 | the same contract as `Encrypt` |
| `Identity.RoundTrip` | blktap-master/drivers/identity/identity.c:7-21 | decrypting what encrypt produced restores the original bytes, whatever the aliasing between the three buffers |
| `Identity.InPlaceRoundTrip` | blktap-master/mockatests/drivers/test-tapdisk-stats.c:172-181 | the test's in-place sequence (copy, encrypt in place, copy, decrypt in place) ends with the clear text |

`BlockLog.EightKibibitScenario` works through a concrete case. A log for 1,048,576 sectors with
64 KiB blocks has 8,192 bits. A write of sectors [130, 260) sets bits 1 and 2 and no other bit.
`BlockLog.MapFailedScenario` opens a log whose `mmap` fails. `Open` returns 0 with `MAP_FAILED`
as the bitmap, and `Close` then unmaps it. `OpenChecked` returns -1.

## Left out

- Opening the log file, `mmap`, `munmap` and `close` are I/O. Their outcomes are parameters:
  `fileOpened`, and an `MmapResult` holding the mapped header and words or `MAP_FAILED`. The
  length passed to `munmap` is an output of `Close`. The failure messages are not modelled.
- `td_forward_request` is a framework call. The forwarded request is returned as an output.
- `SECTOR_SIZE`, `CBT_BLOCK_SIZE`, `sizeof(struct cbt_log_metadata)` and `bitmap_size` are not
  part of this model. They are fields of `Format`; only the two sizes are assumed positive.
  The fields of the metadata header are not interpreted, because the driver never reads them.
- The header and the bitmap words are two separate arrays. The model therefore does not show
  the words as bytes of the same buffer (byte order, alignment).
- Sharing a `MAP_SHARED` mapping with other processes is a concurrency concern. It is not
  modelled.
- `blktap-master/drivers/crypto/transformation.c` is not part of this model. It is
  configuration parsing and dynamic loading of the cipher functions.
- The `cbt_util` create/get/set/coalesce operations declared in
  `blktap-master/mockatests/cbt/test-suites.h` are not part of this model. Their code is not
  available.
- `Bitmap.SetBit`: requires the word holding bit `nr` to lie inside the mapped words. The
  source does no bounds check; an out-of-range `nr` writes outside the mapping.
- `BlockLog.LogDriver.BitmapSet`: requires `block + count <= 2^31`, so that every `block + i`
  converts to `set_bit`'s int parameter unchanged. Beyond that bound the source sets the wrong
  bit or writes outside the mapping.
- `BlockLog.LogDriver.QueueWrite`: requires the following, so the wrapped behaviour is not
  modelled:
  - `secs >= 1`. With `secs == 0`, `sec + secs - 1` underflows.
  - The last sector and its byte offset fit in uint64.
  - The last block index is below `INT_MAX`, so the block count and every index fit in an int.
  - The last block lies inside the mapped words.
- `BlockLog.BlockHasWrittenSector`: stated only for tracking blocks at least one sector long,
  for the same reason as the next line.
- `BlockLog.WriteRangeIsTight`: stated only for tracking blocks at least one sector long.
  Otherwise the mapping from sectors to blocks can skip blocks.
- `BlockLog.WriteDirtiesExactlyWrittenBlocks`: says which blocks hold a written sector's first
  byte, and only for blocks at least one sector long. A sector that straddles two blocks marks
  only the first of them. `CbtFormat.SectorWithinBlock` shows that no sector straddles blocks
  when the block size is a whole number of sectors.
- Any bitmap access after `Open` has let `MAP_FAILED` through goes through an invalid pointer.
  It is not modelled: `BitmapSet` and `QueueWrite` require a real mapping.
- `Identity.Encrypt`: two distinct buffers that partly overlap cannot be expressed with Dafny
  arrays. `memcpy` on such buffers is undefined in C anyway. The same holds for
  `Identity.Decrypt`.

## Findings

| source | as written | input that shows it | evidently intended | confidence | as-written member | corrected member |
|---|---|---|---|---|---|---|
| blktap-master/drivers/block-log.c:101 | `bitmap_init` treats a NULL return of `mmap` as failure, but `mmap` reports failure with `MAP_FAILED` and never returns NULL here | the log file opens and `mmap` fails: `bitmap_init` returns 0 and the driver comes up with `MAP_FAILED` as its bitmap | compare the result with `MAP_FAILED` and fail the open | high; not executed | `BlockLog.InitStatusAsWritten`, `BlockLog.MapFailureGoesUnnoticed`, `BlockLog.LogDriver.BitmapInit`, `BlockLog.LogDriver.Open` | `BlockLog.InitStatus`, `BlockLog.LogDriver.BitmapInitChecked`, `BlockLog.LogDriver.OpenChecked` |
