/**
 * check_chain: walk blocks 1..last in order with a running expected
 * predecessor (initially ""), stop at the first block whose prev.txt differs
 * from it or whose hash.txt reads empty.
 */
module Chain {
  import opened Store

  datatype Report = Ok | BrokenLink(at: int) | MissingHash(at: int)

  /** The predecessor block i must name: "" for block 1, else what block i-1's hash.txt reads. */
  function Expected(fs: FileSystem, i: int): string
  {
    if i <= 1 then "" else ReadFile(fs, BlockFile(i - 1, Hash))
  }

  predicate LinkOk(fs: FileSystem, i: int) {
    ReadFile(fs, BlockFile(i, Prev)) == Expected(fs, i)
  }

  predicate HashOk(fs: FileSystem, i: int) {
    ReadFile(fs, BlockFile(i, Hash)) != ""
  }

  predicate BlockOk(fs: FileSystem, i: int) {
    LinkOk(fs, i) && HashOk(fs, i)
  }

  /** Every block 1..last is linked to its predecessor and has a hash. */
  ghost predicate AllBlocksOk(fs: FileSystem, last: int) {
    forall i :: 1 <= i <= last ==> BlockOk(fs, i)
  }

  /** Reference definition of what check_chain(last) reports. */
  function ChainReport(fs: FileSystem, last: int): Report
    decreases last
  {
    if last <= 0 then Ok
    else
      var before := ChainReport(fs, last - 1);
      if before != Ok then before
      else if !LinkOk(fs, last) then BrokenLink(last)
      else if !HashOk(fs, last) then MissingHash(last)
      else Ok
  }

  /** The chain is reported intact iff every block 1..last is linked and has a hash. */
  lemma {:induction false} ChainOkIff(fs: FileSystem, last: int)
    ensures ChainReport(fs, last) == Ok <==> AllBlocksOk(fs, last)
  {
    if last > 0 {
      ChainOkIff(fs, last - 1);
      if AllBlocksOk(fs, last) {
        assert BlockOk(fs, last);
      }
    }
  }

  /**
   * A failure is reported at the least failing index j, and its kind is decided
   * at j alone: the link check comes before the hash check.
   */
  lemma {:induction false} ChainFailureIff(fs: FileSystem, last: int, j: int)
    ensures ChainReport(fs, last) == BrokenLink(j) <==>
      1 <= j <= last && (forall i :: 1 <= i < j ==> BlockOk(fs, i)) && !LinkOk(fs, j)
    ensures ChainReport(fs, last) == MissingHash(j) <==>
      1 <= j <= last && (forall i :: 1 <= i < j ==> BlockOk(fs, i)) && LinkOk(fs, j) && !HashOk(fs, j)
  {
    if last > 0 {
      ChainFailureIff(fs, last - 1, j);
      ChainOkIff(fs, last - 1);
    }
  }

  /** Once a failure is reported, checking further blocks reports the same failure. */
  lemma {:induction false} FailureSticks(fs: FileSystem, k: int, last: int)
    requires k <= last
    requires ChainReport(fs, k) != Ok
    ensures ChainReport(fs, last) == ChainReport(fs, k)
    decreases last - k
  {
    if k < last {
      FailureSticks(fs, k, last - 1);
    }
  }

  /** Two stores whose blocks 1..n read the same. */
  ghost predicate AgreeUpTo(fs: FileSystem, fs': FileSystem, n: int) {
    forall i, f :: 1 <= i <= n ==> ReadFile(fs, BlockFile(i, f)) == ReadFile(fs', BlockFile(i, f))
  }

  /** The report for 1..n depends only on what blocks 1..n read. */
  lemma {:induction false} ReportLocal(fs: FileSystem, fs': FileSystem, n: int)
    requires AgreeUpTo(fs, fs', n)
    ensures ChainReport(fs, n) == ChainReport(fs', n)
    decreases n
  {
    if n > 0 {
      assert AgreeUpTo(fs, fs', n - 1);
      ReportLocal(fs, fs', n - 1);
      assert ReadFile(fs, BlockFile(n, Prev)) == ReadFile(fs', BlockFile(n, Prev));
      assert ReadFile(fs, BlockFile(n, Hash)) == ReadFile(fs', BlockFile(n, Hash));
      if n > 1 {
        assert ReadFile(fs, BlockFile(n - 1, Hash)) == ReadFile(fs', BlockFile(n - 1, Hash));
      }
    }
  }

  /**
   * Fail-fast: when the walk fails at j, nothing after block j is looked at;
   * any store that agrees on blocks 1..j gets the same report.
   */
  lemma FailFast(fs: FileSystem, fs': FileSystem, last: int, last': int, j: int)
    requires ChainReport(fs, last) in {BrokenLink(j), MissingHash(j)}
    requires AgreeUpTo(fs, fs', j)
    requires j <= last'
    ensures ChainReport(fs', last') == ChainReport(fs, last)
  {
    ChainFailureIff(fs, last, j);
    ChainFailureIff(fs, j, j);
    ReportLocal(fs, fs', j);
    FailureSticks(fs', j, last');
  }

  /** check_chain(last_index). */
  method CheckChain(fs: FileSystem, lastIndex: int) returns (r: Report)
    ensures r == ChainReport(fs, lastIndex)
  {
    var prevHash := "";
    var i := 1;
    while i <= lastIndex
      invariant 1 <= i && (lastIndex >= 1 ==> i <= lastIndex + 1)
      invariant ChainReport(fs, i - 1) == Ok
      invariant prevHash == Expected(fs, i)
    {
      var readPrev := ReadFile(fs, BlockFile(i, Prev));
      if readPrev != prevHash {
        FailureSticks(fs, i, lastIndex);
        return BrokenLink(i);
      }
      var readHash := ReadFile(fs, BlockFile(i, Hash));
      if |readHash| == 0 {
        FailureSticks(fs, i, lastIndex);
        return MissingHash(i);
      }
      prevHash := readHash;
      i := i + 1;
    }
    return Ok;
  }

  /** An intact chain up to `last` is intact up to every earlier index. */
  lemma OkPrefix(fs: FileSystem, k: int, last: int)
    requires k <= last
    requires ChainReport(fs, last) == Ok
    ensures ChainReport(fs, k) == Ok
  {
    if ChainReport(fs, k) != Ok {
      FailureSticks(fs, k, last);
    }
  }

  /** fs' reads like fs everywhere except, possibly, at path p. */
  ghost predicate DiffersOnlyAt(fs: FileSystem, fs': FileSystem, p: Path) {
    forall q :: q != p ==> ReadFile(fs', q) == ReadFile(fs, q)
  }

  /** A change at block j or later leaves blocks 1..j-1 intact and block j's expected predecessor unchanged. */
  lemma IntactBefore(fs: FileSystem, fs': FileSystem, last: int, j: int, p: Path)
    requires ChainReport(fs, last) == Ok
    requires 1 <= j <= last
    requires DiffersOnlyAt(fs, fs', p) && p.index >= j
    ensures ChainReport(fs', j - 1) == Ok
    ensures Expected(fs', j) == Expected(fs, j)
    ensures BlockOk(fs, j)
    ensures j < last ==> LinkOk(fs, j + 1)
  {
    ChainOkIff(fs, last);
    if j < last {
      assert BlockOk(fs, j + 1);
    }
    OkPrefix(fs, j - 1, last);
    assert AgreeUpTo(fs, fs', j - 1);
    ReportLocal(fs, fs', j - 1);
  }

  /** Changing the prev.txt of block j of an intact chain is reported at exactly j. */
  lemma TamperPrev(fs: FileSystem, fs': FileSystem, last: int, j: int)
    requires ChainReport(fs, last) == Ok
    requires 1 <= j <= last
    requires DiffersOnlyAt(fs, fs', BlockFile(j, Prev))
    requires ReadFile(fs', BlockFile(j, Prev)) != ReadFile(fs, BlockFile(j, Prev))
    ensures ChainReport(fs', last) == BrokenLink(j)
  {
    IntactBefore(fs, fs', last, j, BlockFile(j, Prev));
    assert ChainReport(fs', j) == BrokenLink(j);
    FailureSticks(fs', j, last);
  }

  /** Emptying the hash.txt of block j of an intact chain is reported as a missing hash at j. */
  lemma TamperHashEmpty(fs: FileSystem, fs': FileSystem, last: int, j: int)
    requires ChainReport(fs, last) == Ok
    requires 1 <= j <= last
    requires DiffersOnlyAt(fs, fs', BlockFile(j, Hash))
    requires ReadFile(fs', BlockFile(j, Hash)) == ""
    ensures ChainReport(fs', last) == MissingHash(j)
  {
    IntactBefore(fs, fs', last, j, BlockFile(j, Hash));
    assert LinkOk(fs', j);
    assert ChainReport(fs', j) == MissingHash(j);
    FailureSticks(fs', j, last);
  }

  /**
   * Replacing the hash.txt of block j < last of an intact chain by a different
   * non-empty hash is not reported at j: it breaks the link of block j + 1.
   */
  lemma TamperHashChanged(fs: FileSystem, fs': FileSystem, last: int, j: int)
    requires ChainReport(fs, last) == Ok
    requires 1 <= j < last
    requires DiffersOnlyAt(fs, fs', BlockFile(j, Hash))
    requires ReadFile(fs', BlockFile(j, Hash)) != ReadFile(fs, BlockFile(j, Hash))
    requires ReadFile(fs', BlockFile(j, Hash)) != ""
    ensures ChainReport(fs', last) == BrokenLink(j + 1)
  {
    IntactBefore(fs, fs', last, j, BlockFile(j, Hash));
    BreakAfter(fs, fs', j, last);
  }

  /**
   * Replacing the hash.txt of the last checked block of an intact chain by any
   * other non-empty hash goes unnoticed: no later block's prev.txt is compared
   * with it.
   */
  lemma TamperLastHashUndetected(fs: FileSystem, fs': FileSystem, last: int)
    requires ChainReport(fs, last) == Ok
    requires last >= 1
    requires DiffersOnlyAt(fs, fs', BlockFile(last, Hash))
    requires ReadFile(fs', BlockFile(last, Hash)) != ""
    ensures ChainReport(fs', last) == Ok
  {
    IntactBefore(fs, fs', last, last, BlockFile(last, Hash));
    assert ReadFile(fs', BlockFile(last, Prev)) == ReadFile(fs, BlockFile(last, Prev));
  }

  /** check_chain never reads data.txt: changing a payload changes no report. */
  lemma {:induction false} TamperDataUndetected(fs: FileSystem, fs': FileSystem, last: int, j: int)
    requires DiffersOnlyAt(fs, fs', BlockFile(j, Data))
    ensures ChainReport(fs', last) == ChainReport(fs, last)
    decreases last
  {
    if last > 0 {
      TamperDataUndetected(fs, fs', last - 1, j);
      assert ReadFile(fs', BlockFile(last, Prev)) == ReadFile(fs, BlockFile(last, Prev));
      assert ReadFile(fs', BlockFile(last, Hash)) == ReadFile(fs, BlockFile(last, Hash));
      assert ReadFile(fs', BlockFile(last - 1, Hash)) == ReadFile(fs, BlockFile(last - 1, Hash));
    }
  }

  /** Helper of TamperHashChanged: block j still passes, block j + 1 no longer links. */
  lemma BreakAfter(fs: FileSystem, fs': FileSystem, j: int, last: int)
    requires 1 <= j < last
    requires ChainReport(fs', j - 1) == Ok && Expected(fs', j) == Expected(fs, j) && LinkOk(fs, j)
    requires LinkOk(fs, j + 1)
    requires DiffersOnlyAt(fs, fs', BlockFile(j, Hash))
    requires ReadFile(fs', BlockFile(j, Hash)) != ReadFile(fs, BlockFile(j, Hash))
    requires ReadFile(fs', BlockFile(j, Hash)) != ""
    ensures ChainReport(fs', last) == BrokenLink(j + 1)
  {
    assert ReadFile(fs', BlockFile(j, Prev)) == ReadFile(fs, BlockFile(j, Prev));
    assert ReadFile(fs', BlockFile(j + 1, Prev)) == ReadFile(fs, BlockFile(j + 1, Prev));
    assert ChainReport(fs', j + 1) == BrokenLink(j + 1);
    FailureSticks(fs', j + 1, last);
  }

  /** The block after block i must name what block i's hash.txt reads. */
  lemma ExpectedAfter(fs: FileSystem, i: int)
    requires i >= 1
    ensures Expected(fs, i + 1) == ReadFile(fs, BlockFile(i, Hash))
  {
  }

  /** Writing block i does not change what block i must name. */
  lemma PutBlockKeepsExpected(fs: FileSystem, i: int, data: string, prev: string, hash: string, io: WriteOutcomes)
    ensures Expected(PutBlock(fs, i, data, prev, hash, io), i) == Expected(fs, i)
  {
    if i > 1 {
      PutBlockFrame(fs, i, data, prev, hash, io, BlockFile(i - 1, Hash));
    }
  }

  /** Writing block i does not change the report for blocks 1..i-1. */
  lemma PutBlockKeepsEarlier(fs: FileSystem, i: int, data: string, prev: string, hash: string, io: WriteOutcomes)
    ensures ChainReport(PutBlock(fs, i, data, prev, hash, io), i - 1) == ChainReport(fs, i - 1)
  {
    var fs' := PutBlock(fs, i, data, prev, hash, io);
    forall k, f | 1 <= k <= i - 1
      ensures ReadFile(fs, BlockFile(k, f)) == ReadFile(fs', BlockFile(k, f))
    {
      PutBlockFrame(fs, i, data, prev, hash, io, BlockFile(k, f));
    }
    ReportLocal(fs, fs', i - 1);
  }

  /** Writing block i leaves blocks 1..i-1 as intact as they were. */
  lemma PutBlockKeepsIntact(fs: FileSystem, i: int, data: string, prev: string, hash: string, io: WriteOutcomes)
    requires AllBlocksOk(fs, i - 1)
    ensures AllBlocksOk(PutBlock(fs, i, data, prev, hash, io), i - 1)
  {
    var fs' := PutBlock(fs, i, data, prev, hash, io);
    forall k | 1 <= k <= i - 1
      ensures BlockOk(fs', k)
    {
      assert BlockOk(fs, k);
      PutBlockFrame(fs, i, data, prev, hash, io, BlockFile(k, Prev));
      PutBlockFrame(fs, i, data, prev, hash, io, BlockFile(k, Hash));
      PutBlockFrame(fs, i, data, prev, hash, io, BlockFile(k - 1, Hash));
    }
  }

  /**
   * Appending keeps the chain intact: if blocks 1..i-1 are intact, block i is
   * written with the expected predecessor, and its hash reads back non-empty,
   * then blocks 1..i are intact.
   */
  lemma AppendKeepsChain(fs: FileSystem, i: int, data: string, hash: string, io: WriteOutcomes)
    requires i >= 1
    requires AllBlocksOk(fs, i - 1)
    requires io.prevOk
    requires ReadFile(PutBlock(fs, i, data, Expected(fs, i), hash, io), BlockFile(i, Hash)) != ""
    ensures AllBlocksOk(PutBlock(fs, i, data, Expected(fs, i), hash, io), i)
  {
    var tip := Expected(fs, i);
    var fs' := PutBlock(fs, i, data, tip, hash, io);
    PutBlockKeepsIntact(fs, i, data, tip, hash, io);
    if i > 1 {
      ReadFileStorable(fs, BlockFile(i - 1, Hash));
      PutBlockFrame(fs, i, data, tip, hash, io, BlockFile(i - 1, Hash));
    }
    var fs1 := WriteFile(fs, BlockFile(i, Data), data, io.dataOk);
    ReadAfterWrite(fs1, BlockFile(i, Prev), tip);
    assert BlockOk(fs', i);
  }

  /**
   * Append is not all-or-nothing, for any block of any store: when blocks
   * 1..i-1 are intact, block i's prev.txt cannot be rewritten and reads other
   * than the expected predecessor, and hash.txt is written, the new hash reads
   * back (so main advances) yet the chain is broken at block i.
   */
  lemma StalePrevBreaksChainAt(fs: FileSystem, i: int, data: string, hash: string, dataOk: bool)
    requires i >= 1 && AllBlocksOk(fs, i - 1)
    requires ReadFile(fs, BlockFile(i, Prev)) != Expected(fs, i)
    requires hash != "" && Storable(hash)
    ensures var fs' := PutBlock(fs, i, data, Expected(fs, i), hash, WriteOutcomes(dataOk, false, true));
      ReadFile(fs', BlockFile(i, Hash)) == hash && ChainReport(fs', i) == BrokenLink(i)
  {
    var io := WriteOutcomes(dataOk, false, true);
    var fs' := PutBlock(fs, i, data, Expected(fs, i), hash, io);
    PutBlockReadsHash(fs, i, data, Expected(fs, i), hash, io);
    PutBlockKeepsEarlier(fs, i, data, Expected(fs, i), hash, io);
    PutBlockKeepsExpected(fs, i, data, Expected(fs, i), hash, io);
    ChainOkIff(fs, i - 1);
    PutBlockFailedWriteKeeps(fs, i, data, Expected(fs, i), hash, io, Prev);
    assert ReadFile(fs', BlockFile(i, Prev)) == ReadFile(fs, BlockFile(i, Prev));
  }

  /**
   * Append is not all-or-nothing: when prev.txt cannot be rewritten and still
   * holds a stale value while hash.txt is written, the new hash reads back, so
   * the ledger advances, yet the chain is broken at that block.
   */
  lemma StalePrevBreaksChain(data: string, hash: string)
    requires hash != "" && Storable(hash)
    ensures var fs := PutBlock(map[BlockFile(1, Prev) := "stale"], 1, data, "", hash, WriteOutcomes(true, false, true));
      ReadFile(fs, BlockFile(1, Hash)) == hash && ChainReport(fs, 1) == BrokenLink(1)
  {
    var fs0: FileSystem := map[BlockFile(1, Prev) := "stale"];
    var fs := PutBlock(fs0, 1, data, "", hash, WriteOutcomes(true, false, true));
    ReadAfterWrite(WriteFile(fs0, BlockFile(1, Data), data, true), BlockFile(1, Hash), hash);
    assert fs[BlockFile(1, Prev)] == "stale";
    LineEndOfLine("stale", 0, READ_BUFFER_SIZE - 1);
    assert ReadFile(fs, BlockFile(1, Prev)) == "stale";
  }
}
