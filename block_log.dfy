/**
 * The changed-block-tracking driver: it sits on top of another disk, marks
 * the tracking blocks every write touches in the dirty bitmap of a mapped
 * log file, and forwards every request unchanged.
 */
module BlockLog {
  import opened CbtFormat
  import opened Bitmap

  const EINVAL: int := 22

  /**
   * A request as the driver sees it: its first sector and its sector count
   * (td_request_t's sec and secs); buf stands for the payload and for every
   * other field, none of which the driver reads.
   */
  datatype Request = Request(sec: u64, secs: i32, buf: seq<bv8>)

  /** The tracking blocks a write covers, first and last inclusive. */
  datatype BlockRange = BlockRange(first: u64, last: u64)

  /**
   * What mmap gives back: the mapped region, seen as the metadata header
   * followed by the bitmap words, or MAP_FAILED.
   */
  datatype MmapResult = Mapped(header: array<bv8>, words: array<bv64>) | MapFailed

  /**
   * The region mmap returns has the header and the bitmap that a log for
   * `size` sectors needs.
   */
  predicate RegionFits(fmt: Format, size: u64, mapping: MmapResult)
  {
    mapping.Mapped? ==>
      mapping.header.Length == fmt.headerBytes && mapping.words.Length == MappedWords(fmt, size)
  }

  /**
   * The test `!data->bitmap` on mmap's result. mmap returns the address of
   * the mapping or MAP_FAILED, and neither is NULL.
   */
  function MmapReturnIsNull(mapping: MmapResult): bool { false }

  /** bitmap_init's status as written: a failed mmap is not noticed. */
  function InitStatusAsWritten(fileOpened: bool, mapping: MmapResult): (rc: int)
    ensures rc == (if fileOpened then 0 else -1)
  {
    if !fileOpened then -1
    else if MmapReturnIsNull(mapping) then -1
    else 0
  }

  /** The input on which InitStatusAsWritten reports success for a failed mmap. */
  lemma MapFailureGoesUnnoticed()
    ensures InitStatusAsWritten(true, MapFailed) == 0
  {}

  /** bitmap_init's status with the mmap test against MAP_FAILED. */
  function InitStatus(fileOpened: bool, mapping: MmapResult): (rc: int)
    ensures rc == 0 || rc == -1
    ensures rc == 0 <==> fileOpened && mapping.Mapped?
  {
    if !fileOpened then -1
    else if mapping.MapFailed? then -1
    else 0
  }

  /**
   * A write request the driver's arithmetic handles without wrap-around:
   * at least one sector, and the last sector and its byte offset fit in
   * uint64_t.
   */
  predicate WriteFits(fmt: Format, treq: Request)
  {
    1 <= treq.secs && treq.sec + treq.secs - 1 < U64_LIMIT && fmt.OffsetFits(treq.sec + treq.secs - 1)
  }

  /**
   * The block range tdlog_queue_write computes: the blocks of the first and
   * of the last sector of the request, sec + secs - 1 being computed in
   * uint64_t.
   */
  function WriteBlockRange(fmt: Format, treq: Request): (r: BlockRange)
    requires fmt.Valid() && WriteFits(fmt, treq)
    ensures r.first <= r.last
    ensures r.first == GetBitForSec(fmt, treq.sec)
    ensures r.last == GetBitForSec(fmt, treq.sec + treq.secs - 1)
  {
    LastOfRunNoWrap(treq.sec, treq.secs);
    var lastSec := Sub64(Add64(treq.sec, ULongOf(treq.secs)), 1);
    GetBitForSecMonotone(fmt, treq.sec, lastSec);
    BlockRange(GetBitForSec(fmt, treq.sec), GetBitForSec(fmt, lastSec))
  }

  /**
   * `(last_bit - start_bit) + 1`, computed in uint64_t and passed on as an
   * int: the number of blocks in the range when that number fits in an int.
   */
  function BlockCount(r: BlockRange): (count: i32)
    requires r.first <= r.last && r.last - r.first < INT_MAX
    ensures count == r.last - r.first + 1
  {
    SubNoWrap(r.last, r.first);
    AddNoWrap(r.last - r.first, 1);
    Int32OfSmall(r.last - r.first + 1);
    Int32Of(Add64(Sub64(r.last, r.first), 1))
  }

  /** Every sector of a write lies in a block of the range the write marks. */
  lemma WriteCoversEverySector(fmt: Format, treq: Request, s: u64)
    requires fmt.Valid() && WriteFits(fmt, treq)
    requires treq.sec <= s < treq.sec + treq.secs
    ensures var r := WriteBlockRange(fmt, treq);
            r.first <= GetBitForSec(fmt, s) <= r.last
  {
    var last: u64 := treq.sec + treq.secs - 1;
    MulMonotone(s, last, fmt.sectorSize);
    GetBitForSecMonotone(fmt, treq.sec, s);
    GetBitForSecMonotone(fmt, s, last);
  }

  /**
   * The blocks of consecutive sectors, in order, where each is the same as
   * or one past the one before: every block between the first and the last
   * occurs in the sequence.
   */
  lemma {:induction false} NoBlockSkipped(blocks: seq<int>, j: int)
    requires |blocks| >= 1
    requires forall k | 0 <= k < |blocks| - 1 :: blocks[k] <= blocks[k + 1] <= blocks[k] + 1
    requires blocks[0] <= j <= blocks[|blocks| - 1]
    ensures exists k :: 0 <= k < |blocks| && blocks[k] == j
  {
    var last := |blocks| - 1;
    if j == blocks[last] {
      assert 0 <= last < |blocks| && blocks[last] == j;
    } else {
      assert last >= 1 && j <= blocks[last - 1];
      NoBlockSkipped(blocks[..last], j);
      var k :| 0 <= k < last && blocks[..last][k] == j;
      assert blocks[k] == j;
    }
  }

  /** Every block from that of sector sec to that of sector sec + n - 1 holds one of those n sectors. */
  lemma BlockHasWrittenSector(fmt: Format, sec: u64, n: nat, j: nat)
    requires fmt.Valid() && fmt.sectorSize <= fmt.blockSize
    requires 1 <= n && sec + n - 1 < U64_LIMIT && fmt.OffsetFits(sec + n - 1)
    requires GetBitForSec(fmt, sec) <= j <= GetBitForSec(fmt, sec + n - 1)
    ensures exists s: u64 :: sec <= s < sec + n && GetBitForSec(fmt, s) == j
  {
    var blocks := seq(n, k requires 0 <= k < n => GetBitForSec(fmt, sec + k) as int);
    forall k | 0 <= k < n - 1
      ensures blocks[k] <= blocks[k + 1] <= blocks[k] + 1
    {
      var s: u64 := sec + k;
      MulMonotone(s + 1, sec + n - 1, fmt.sectorSize);
      GetBitForSecMonotone(fmt, s, s + 1);
      GetBitForSecStep(fmt, s);
    }
    NoBlockSkipped(blocks, j);
    var k :| 0 <= k < n && blocks[k] == j;
    var s: u64 := sec + k;
    assert sec <= s < sec + n && GetBitForSec(fmt, s) == j;
  }

  /**
   * When a tracking block is at least one sector long, every block of the
   * range a write marks holds a sector of that write: the range is tight.
   */
  lemma WriteRangeIsTight(fmt: Format, treq: Request, j: nat)
    requires fmt.Valid() && fmt.sectorSize <= fmt.blockSize && WriteFits(fmt, treq)
    requires WriteBlockRange(fmt, treq).first <= j <= WriteBlockRange(fmt, treq).last
    ensures exists s: u64 :: treq.sec <= s < treq.sec + treq.secs && GetBitForSec(fmt, s) == j
  {
    BlockHasWrittenSector(fmt, treq.sec, treq.secs, j);
  }

  /**
   * After a write, a block is dirty exactly when it was dirty before or some
   * sector of the write lies in it.
   */
  lemma WriteDirtiesExactlyWrittenBlocks(fmt: Format, treq: Request, bs: seq<bool>, j: nat)
    requires fmt.Valid() && fmt.sectorSize <= fmt.blockSize && WriteFits(fmt, treq)
    requires j < |bs|
    ensures var r := WriteBlockRange(fmt, treq);
            SetRun(bs, r.first, r.last - r.first + 1)[j] <==>
              bs[j] || exists s: u64 :: treq.sec <= s < treq.sec + treq.secs && GetBitForSec(fmt, s) == j
  {
    var r := WriteBlockRange(fmt, treq);
    SetRunAt(bs, r.first, r.last - r.first + 1, j);
    if r.first <= j <= r.last {
      WriteRangeIsTight(fmt, treq, j);
    }
    if exists s: u64 :: treq.sec <= s < treq.sec + treq.secs && GetBitForSec(fmt, s) == j {
      var s: u64 :| treq.sec <= s < treq.sec + treq.secs && GetBitForSec(fmt, s) == j;
      WriteCoversEverySector(fmt, treq, s);
    }
  }

  /**
   * The driver's private data (struct tdlog_data) together with the mapped
   * log: `size` is the disk size in sectors, `mapped` says whether the
   * bitmap pointer holds a real mapping, `mapFailed` whether it holds
   * MAP_FAILED (which bitmap_init lets through), `header` is the metadata
   * header at the start of the mapping and `words` the bitmap after it.
   */
  class LogDriver {
    const fmt: Format
    var size: u64
    var mapped: bool
    var mapFailed: bool
    var header: array<bv8>
    var words: array<bv64>
    /** The length the mapping was asked for. */
    ghost var mappedLength: u64

    ghost predicate Valid()
      reads this
    {
      fmt.Valid() &&
      !(mapped && mapFailed) &&
      ((mapped || mapFailed) ==> mappedLength == MapLength(fmt, size)) &&
      (mapped ==>
         header.Length == fmt.headerBytes &&
         words.Length == MappedWords(fmt, size))
    }

    /** The dirty flag of every tracking block the mapping holds. */
    ghost function Bits(): seq<bool>
      reads this, words
    {
      BitsOf(words[..])
    }

    /** The private data as the framework hands it over: zeroed. */
    constructor (fmt: Format)
      requires fmt.Valid()
      ensures Valid() && this.fmt == fmt && size == 0 && !mapped && !mapFailed
    {
      this.fmt := fmt;
      size := 0;
      mapped := false;
      mapFailed := false;
      header := new bv8[0];
      words := new bv64[0];
      mappedLength := 0;
    }

    /**
     * bitmap_init as written: open the log file and map header and bitmap.
     * Opening the file and mapping it are I/O; their outcomes are the
     * parameters. The result of mmap is tested against NULL, so MAP_FAILED
     * is stored as the bitmap pointer and reported as success.
     */
    method BitmapInit(fileOpened: bool, mapping: MmapResult) returns (result: int)
      requires Valid() && !mapped && !mapFailed && RegionFits(fmt, size, mapping)
      modifies this`mapped, this`mapFailed, this`header, this`words, this`mappedLength
      ensures Valid() && size == old(size)
      ensures result == InitStatusAsWritten(fileOpened, mapping)
      ensures mapped <==> fileOpened && mapping.Mapped?
      ensures mapFailed <==> fileOpened && mapping.MapFailed?
      ensures mapped ==> header == mapping.header && words == mapping.words
      ensures fileOpened ==> mappedLength == MapLength(fmt, size)
    {
      result := 0;
      if !fileOpened {
        result := -1;
      }
      if result == 0 {
        var bmsize := MapLength(fmt, size);
        mappedLength := bmsize;
        if mapping.MapFailed? {
          mapFailed := true;
        } else {
          header, words := mapping.header, mapping.words;
          mapped := true;
        }
        if MmapReturnIsNull(mapping) {
          result := -1;
        }
      }
    }

    /**
     * bitmap_init with the mmap result tested against MAP_FAILED: a failed
     * mapping is reported and leaves no bitmap pointer behind.
     */
    method BitmapInitChecked(fileOpened: bool, mapping: MmapResult) returns (result: int)
      requires Valid() && !mapped && !mapFailed && RegionFits(fmt, size, mapping)
      modifies this`mapped, this`header, this`words, this`mappedLength
      ensures Valid() && size == old(size) && !mapFailed
      ensures result == InitStatus(fileOpened, mapping)
      ensures mapped <==> result == 0
      ensures mapped ==> header == mapping.header && words == mapping.words && mappedLength == MapLength(fmt, size)
    {
      result := 0;
      if !fileOpened {
        result := -1;
      }
      if result == 0 {
        var bmsize := MapLength(fmt, size);
        if mapping.MapFailed? {
          result := -1;
        } else {
          header, words, mappedLength := mapping.header, mapping.words, bmsize;
          mapped := true;
        }
      }
    }

    /**
     * tdlog_open as written: zero the private data, record the disk size
     * and map the log; only a log file that does not open is an error.
     */
    method Open(infoSize: u64, fileOpened: bool, mapping: MmapResult) returns (rc: int)
      requires fmt.Valid() && RegionFits(fmt, infoSize, mapping)
      modifies this
      ensures Valid() && size == infoSize
      ensures rc == InitStatusAsWritten(fileOpened, mapping)
      ensures mapped <==> fileOpened && mapping.Mapped?
      ensures mapFailed <==> fileOpened && mapping.MapFailed?
      ensures mapped ==> header == mapping.header && words == mapping.words
      ensures fileOpened ==> mappedLength == MapLength(fmt, infoSize)
    {
      mapped, mapFailed := false, false;
      size := infoSize;
      rc := BitmapInit(fileOpened, mapping);
      if rc != 0 {
        var closeRc, unmapped := Close();
        return;
      }
    }

    /** tdlog_open over BitmapInitChecked: every failure is reported. */
    method OpenChecked(infoSize: u64, fileOpened: bool, mapping: MmapResult) returns (rc: int)
      requires fmt.Valid() && RegionFits(fmt, infoSize, mapping)
      modifies this
      ensures Valid() && size == infoSize && !mapFailed
      ensures rc == InitStatus(fileOpened, mapping)
      ensures mapped <==> rc == 0
      ensures mapped ==> header == mapping.header && words == mapping.words && mappedLength == MapLength(fmt, infoSize)
    {
      mapped, mapFailed := false, false;
      size := infoSize;
      rc := BitmapInitChecked(fileOpened, mapping);
      if rc != 0 {
        var closeRc, unmapped := Close();
        return;
      }
    }

    /**
     * tdlog_close / bitmap_free: unmap the region if the bitmap pointer is
     * set (a MAP_FAILED pointer included, whose munmap fails and is only
     * logged), with the length recomputed from the recorded size. The
     * length unmapped is the length mapped at open.
     */
    method Close() returns (rc: int, unmapLength: Option<u64>)
      requires Valid()
      ensures rc == 0
      ensures unmapLength == if mapped || mapFailed then Some(mappedLength) else None
    {
      var bmsize := MapLength(fmt, size);
      unmapLength := None;
      if mapped || mapFailed {
        unmapLength := Some(bmsize);
      }
      rc := 0;
    }

    /**
     * bitmap_set: set `count` bits from `block` on, one set_bit call each,
     * passing `block + i` to set_bit's int parameter. A count of zero or
     * less sets nothing.
     */
    method BitmapSet(block: u64, count: i32) returns (rc: int)
      requires Valid() && mapped
      requires count > 0 ==> block + count <= INT_MAX + 1 && block + count <= BITS_PER_LONG * words.Length
      modifies words
      ensures rc == 0
      ensures Bits() == SetRun(old(Bits()), block, count)
    {
      var i: i32 := 0;
      while i < count
        invariant 0 <= i <= (if count > 0 then count else 0)
        invariant Bits() == SetRun(old(Bits()), block, i)
      {
        var bit := Add64(block, i);
        AddNoWrap(block, i);
        Int32OfSmall(bit);
        var nr := Int32Of(bit);
        SetBit(nr, words);
        i := i + 1;
      }
      if count <= 0 {
        SetRunNone(old(Bits()), block, count);
      }
      rc := 0;
    }

    /** tdlog_queue_read: forward the request; the bitmap is not touched. */
    method QueueRead(treq: Request) returns (forwarded: Request)
      ensures forwarded == treq
    {
      forwarded := treq;
    }

    /**
     * tdlog_queue_write: mark the blocks from the one holding the request's
     * first sector through the one holding its last sector, then forward the
     * request unchanged. The block count is computed in uint64_t and passed
     * to bitmap_set's int parameter.
     */
    method QueueWrite(treq: Request) returns (forwarded: Request)
      requires Valid() && mapped && WriteFits(fmt, treq)
      requires GetBitForSec(fmt, treq.sec + treq.secs - 1) < INT_MAX
      requires GetBitForSec(fmt, treq.sec + treq.secs - 1) < BITS_PER_LONG * words.Length
      modifies words
      ensures forwarded == treq
      ensures var r := WriteBlockRange(fmt, treq);
              Bits() == SetRun(old(Bits()), r.first, r.last - r.first + 1)
    {
      var r := WriteBlockRange(fmt, treq);
      var count := BlockCount(r);
      var setRc := BitmapSet(r.first, count);
      forwarded := treq;
    }

    /** tdlog_get_parent_id: this driver has no parent disk. */
    method GetParentId<DiskId>(id: DiskId) returns (rc: int)
      ensures rc == -EINVAL
    {
      rc := -EINVAL;
    }

    /** tdlog_validate_parent: any parent is accepted. */
    method ValidateParent<Driver>(parent: Driver, flags: u32) returns (rc: int)
      ensures rc == 0
    {
      rc := 0;
    }
  }

  /**
   * A log for 1,048,576 sectors of 512 bytes with 64 KiB tracking blocks
   * has 8,192 bits. A write of sectors [130, 260) marks blocks 1 and 2 and
   * no other. The header length and the bitmap_size used here are stand-ins.
   */
  method EightKibibitScenario()
  {
    var fmt := Format(512, 65536, 64, x => x / 65536 / 8);
    var d := new LogDriver(fmt);
    var header := new bv8[64];
    var words := new bv64[128](_ => 0);
    var rc := d.Open(1048576, true, Mapped(header, words));
    assert rc == 0 && d.words == words;
    assert d.Bits() == BitsOf(words[..]);
    assert forall j | 0 <= j < |d.Bits()| :: !d.Bits()[j];
    var treq := Request(130, 130, []);
    assert GetBitForSec(fmt, 130) == 1 && GetBitForSec(fmt, 259) == 2;
    ghost var before := d.Bits();
    var forwarded := d.QueueWrite(treq);
    assert forwarded == treq;
    assert d.Bits() == SetRun(before, 1, 2);
    forall j | 0 <= j < |d.Bits()|
      ensures d.Bits()[j] <==> (j == 1 || j == 2)
    {
      SetRunAt(before, 1, 2, j);
    }
  }

  /**
   * Opening a log whose mmap fails: the as-written open reports success
   * with MAP_FAILED as the bitmap pointer, and close then unmaps it; the
   * checked open reports the failure and leaves nothing to unmap.
   */
  method MapFailedScenario()
  {
    var fmt := Format(512, 65536, 64, x => x / 65536 / 8);
    var d := new LogDriver(fmt);
    var rc := d.Open(1048576, true, MapFailed);
    assert rc == 0 && d.mapFailed && !d.mapped;
    var closeRc, unmapped := d.Close();
    assert unmapped.Some?;
    var e := new LogDriver(fmt);
    var rcChecked := e.OpenChecked(1048576, true, MapFailed);
    assert rcChecked == -1 && !e.mapped && !e.mapFailed;
  }
}
