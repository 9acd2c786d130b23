/**
 * The state main() keeps between menu commands: the index of the next block
 * (starting at 1) and the hash of the last one (starting empty), over the
 * block store. Command 1 appends a block, command 2 verifies blocks
 * 1..block_index-1.
 */
module Controller {
  import opened HexFormat
  import opened Store
  import opened Mining
  import opened Chain

  class Ledger {
    /** The SHA-256 primitive the program links against. */
    const hasher: Hasher
    /** The files under bc_data/nodes. */
    var store: FileSystem
    /** block_index: the index the next block gets. */
    var blockIndex: int
    /** prev_hash: the predecessor the next block names. */
    var prevHash: string

    /** prev_hash is what block_index's predecessor reads as: "" for block 1, else the stored hash of the last block. */
    ghost predicate Valid()
      reads this
    {
      blockIndex >= 1 && prevHash == Expected(store, blockIndex)
    }

    /** Blocks 1..block_index-1 are all linked and hashed: check_chain(block_index - 1) reports OK. */
    ghost predicate ChainIntact()
      reads this
    {
      AllBlocksOk(store, blockIndex - 1)
    }

    /** Program start: the store may already hold files from an earlier run. */
    constructor (hasher: Hasher, existing: FileSystem)
      ensures this.hasher == hasher && store == existing
      ensures blockIndex == 1 && prevHash == ""
      ensures Valid() && ChainIntact()
    {
      this.hasher := hasher;
      store := existing;
      blockIndex := 1;
      prevHash := "";
    }

    /**
     * Menu command 1: create block block_index against prev_hash, then read
     * its hash back; only a non-empty read advances prev_hash and block_index.
     * The files may have been edited since the last command, so prev_hash need
     * not match the store; the ledger is consistent again once a hash reads back.
     */
    method Append(data: string, io: WriteOutcomes) returns (hash: string, tries: nat)
      requires blockIndex >= 1
      requires exists n: nat :: Accepts(hasher, data, prevHash, DIFFICULTY, n)
      modifies this
      ensures Sealed(hasher, data, old(prevHash), DIFFICULTY, hash, tries)
      ensures store == PutBlock(old(store), old(blockIndex), data, old(prevHash), hash, io)
      ensures var readBack := ReadFile(store, BlockFile(old(blockIndex), Hash));
        if readBack != "" then blockIndex == old(blockIndex) + 1 && prevHash == readBack
        else blockIndex == old(blockIndex) && prevHash == old(prevHash)
      ensures io.hashOk ==> blockIndex == old(blockIndex) + 1 && prevHash == hash
      ensures ReadFile(store, BlockFile(old(blockIndex), Hash)) != "" || old(Valid()) ==> Valid()
      ensures (io.prevOk || ReadFile(store, BlockFile(old(blockIndex), Hash)) == "") && old(Valid()) && old(ChainIntact()) ==> ChainIntact()
    {
      var fs0, tip, i := store, prevHash, blockIndex;
      var fs;
      fs, hash, tries := CreateBlock(hasher, fs0, i, data, tip, io);
      PutBlockKeepsExpected(fs0, i, data, tip, hash, io);
      if io.hashOk {
        SealedHashStorable(hasher, hash, data, tip, tries);
        PutBlockReadsHash(fs0, i, data, tip, hash, io);
      }
      var readNew := ReadFile(fs, BlockFile(i, Hash));
      if |readNew| == 0 {
        if AllBlocksOk(fs0, i - 1) {
          PutBlockKeepsIntact(fs0, i, data, tip, hash, io);
        }
        store := fs;
      } else {
        if io.prevOk && tip == Expected(fs0, i) && AllBlocksOk(fs0, i - 1) {
          AppendKeepsChain(fs0, i, data, hash, io);
        }
        ExpectedAfter(fs, i);
        store, prevHash, blockIndex := fs, readNew, i + 1;
      }
    }

    /** Menu command 2: check_chain(block_index - 1); it reports OK exactly when the chain is intact. */
    method Verify() returns (r: Report)
      ensures r == ChainReport(store, blockIndex - 1)
      ensures r == Ok <==> ChainIntact()
    {
      r := CheckChain(store, blockIndex - 1);
      ChainOkIff(store, blockIndex - 1);
    }
  }

  /**
   * create_block: write data.txt and prev.txt, mine the hash, write hash.txt.
   * Each write may fail, leaving that file as it was. It touches no state of
   * the ledger other than the files.
   */
  method CreateBlock(hasher: Hasher, fs: FileSystem, index: int, data: string, prev: string, io: WriteOutcomes)
    returns (fs': FileSystem, hash: string, tries: nat)
    requires exists n: nat :: Accepts(hasher, data, prev, DIFFICULTY, n)
    ensures Sealed(hasher, data, prev, DIFFICULTY, hash, tries)
    ensures fs' == PutBlock(fs, index, data, prev, hash, io)
  {
    fs' := WriteFile(fs, BlockFile(index, Data), data, io.dataOk);
    fs' := WriteFile(fs', BlockFile(index, Prev), prev, io.prevOk);
    hash, tries := Mine(hasher, data, prev, DIFFICULTY);
    fs' := WriteFile(fs', BlockFile(index, Hash), hash, io.hashOk);
  }

  /** A mined hash is 64 hex digits, so it reads back unchanged. */
  lemma SealedHashStorable(hasher: Hasher, hash: string, data: string, prev: string, tries: nat)
    requires Sealed(hasher, data, prev, DIFFICULTY, hash, tries)
    ensures Storable(hash) && hash != ""
  {
    HexIsLowercase(hasher(Candidate(data, prev, tries - 1)));
    assert forall k :: 0 <= k < |hash| ==> hash[k] != '\n';
  }
}
