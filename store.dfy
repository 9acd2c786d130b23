/**
 * The block store: one directory per block index holding data.txt, prev.txt
 * and hash.txt. The file system is a map from path to file contents; a path
 * that is not in the map is a file that does not exist.
 */
module Store {

  /** The three files of a block. */
  datatype Field = Data | Prev | Hash

  /** bc_data/nodes/node<index>/<field>.txt */
  datatype Path = BlockFile(index: int, field: Field)

  type FileSystem = map<Path, string>

  /** Whether each of the three writes of a block reached its file (fopen may fail). */
  datatype WriteOutcomes = WriteOutcomes(dataOk: bool, prevOk: bool, hashOk: bool)

  /** The static buffer of read_file; fgets stores at most one character less. */
  const READ_BUFFER_SIZE: nat := 2048

  /** A string that reads back unchanged after it is written: one line that fits the buffer (a char stands for one byte). */
  predicate Storable(s: string) {
    '\n' !in s && |s| < READ_BUFFER_SIZE
  }

  /**
   * Where fgets followed by the strcspn cut stops in s, scanning from i: at the
   * end of the contents, at a newline, or once `room` characters are taken.
   */
  function LineEnd(s: string, i: nat, room: nat): (e: nat)
    requires i <= |s| && i <= room
    ensures i <= e <= |s| && e <= room
    decreases |s| - i
  {
    if i == |s| || i == room || s[i] == '\n' then i else LineEnd(s, i + 1, room)
  }

  /** The first line of s, without its newline, cut to at most `room` characters. */
  function ReadLine(s: string, room: nat): string
  {
    s[..LineEnd(s, 0, room)]
  }

  /**
   * read_file: a missing file reads as "", otherwise fgets reads the first line
   * (at most READ_BUFFER_SIZE - 1 characters) and the newline is stripped.
   */
  function ReadFile(fs: FileSystem, p: Path): (r: string)
    ensures p !in fs ==> r == ""
  {
    if p in fs then ReadLine(fs[p], READ_BUFFER_SIZE - 1) else ""
  }

  /** write_file: replaces the contents when the write succeeds; when fopen fails it changes nothing. */
  function WriteFile(fs: FileSystem, p: Path, content: string, ok: bool): (r: FileSystem)
    ensures ok ==> p in r && r[p] == content
    ensures !ok ==> r == fs
  {
    if ok then fs[p := content] else fs
  }

  /** A write to one path leaves what every other path reads unchanged. */
  lemma WriteFileFrame(fs: FileSystem, p: Path, content: string, ok: bool, q: Path)
    requires q != p
    ensures ReadFile(WriteFile(fs, p, content, ok), q) == ReadFile(fs, q)
  {
  }

  /** The writes create_block makes for block i: data, then prev, then hash. */
  function PutBlock(fs: FileSystem, i: int, data: string, prev: string, hash: string, io: WriteOutcomes): (r: FileSystem)
    ensures io.dataOk ==> BlockFile(i, Data) in r && r[BlockFile(i, Data)] == data
    ensures io.prevOk ==> BlockFile(i, Prev) in r && r[BlockFile(i, Prev)] == prev
    ensures io.hashOk ==> BlockFile(i, Hash) in r && r[BlockFile(i, Hash)] == hash
    ensures !io.dataOk && !io.prevOk && !io.hashOk ==> r == fs
  {
    var fs1 := WriteFile(fs, BlockFile(i, Data), data, io.dataOk);
    var fs2 := WriteFile(fs1, BlockFile(i, Prev), prev, io.prevOk);
    WriteFile(fs2, BlockFile(i, Hash), hash, io.hashOk)
  }

  /** The three fields of block i as read_file returns them. */
  function GetBlock(fs: FileSystem, i: int): (string, string, string)
  {
    (ReadFile(fs, BlockFile(i, Data)), ReadFile(fs, BlockFile(i, Prev)), ReadFile(fs, BlockFile(i, Hash)))
  }

  /** A one-line string read back after a successful write is the string written. */
  lemma ReadAfterWrite(fs: FileSystem, p: Path, s: string)
    requires Storable(s)
    ensures ReadFile(WriteFile(fs, p, s, true), p) == s
  {
    LineEndOfLine(s, 0, READ_BUFFER_SIZE - 1);
  }

  lemma {:induction false} LineEndBounds(s: string, i: nat, room: nat)
    requires i <= |s| && i <= room
    ensures forall k :: i <= k < LineEnd(s, i, room) ==> s[k] != '\n'
    decreases |s| - i
  {
    if !(i == |s| || i == room || s[i] == '\n') {
      LineEndBounds(s, i + 1, room);
    }
  }

  lemma ReadLineIsLine(s: string, room: nat)
    ensures '\n' !in ReadLine(s, room) && |ReadLine(s, room)| <= room
  {
    LineEndBounds(s, 0, room);
  }

  /** Whatever read_file returns is one line that fits the buffer, and a missing file reads "". */
  lemma ReadFileStorable(fs: FileSystem, p: Path)
    ensures Storable(ReadFile(fs, p))
    ensures p !in fs ==> ReadFile(fs, p) == ""
  {
    if p in fs {
      ReadLineIsLine(fs[p], READ_BUFFER_SIZE - 1);
    }
  }

  /** The scan stops only at the end of the contents, at a full buffer, or at a newline. */
  lemma {:induction false} LineEndStops(s: string, i: nat, room: nat)
    requires i <= |s| && i <= room
    ensures var e := LineEnd(s, i, room); e == |s| || e == room || s[e] == '\n'
    decreases |s| - i
  {
    if !(i == |s| || i == room || s[i] == '\n') {
      LineEndStops(s, i + 1, room);
    }
  }

  /**
   * An existing file reads as a prefix of its contents with no newline, ending
   * at the end of the contents, after READ_BUFFER_SIZE - 1 characters, or just
   * before the first newline.
   */
  lemma ReadFileFirstLine(fs: FileSystem, p: Path)
    requires p in fs
    ensures var r := ReadFile(fs, p);
      && r == fs[p][..|r|]
      && '\n' !in r
      && (|r| == |fs[p]| || |r| == READ_BUFFER_SIZE - 1 || fs[p][|r|] == '\n')
  {
    LineEndStops(fs[p], 0, READ_BUFFER_SIZE - 1);
    ReadLineIsLine(fs[p], READ_BUFFER_SIZE - 1);
  }

  /** A line that fits the room reads back whole. */
  lemma {:induction false} LineEndOfLine(s: string, i: nat, room: nat)
    requires '\n' !in s && |s| <= room && i <= |s|
    ensures LineEnd(s, i, room) == |s|
    decreases |s| - i
  {
    if i < |s| {
      assert s[i] in s;
      LineEndOfLine(s, i + 1, room);
    }
  }

  /** Get after a fully successful put returns exactly the three fields put. */
  lemma GetAfterPut(fs: FileSystem, i: int, data: string, prev: string, hash: string)
    requires Storable(data) && Storable(prev) && Storable(hash)
    ensures GetBlock(PutBlock(fs, i, data, prev, hash, WriteOutcomes(true, true, true)), i) == (data, prev, hash)
  {
    var fs1 := WriteFile(fs, BlockFile(i, Data), data, true);
    var fs2 := WriteFile(fs1, BlockFile(i, Prev), prev, true);
    ReadAfterWrite(fs, BlockFile(i, Data), data);
    ReadAfterWrite(fs1, BlockFile(i, Prev), prev);
    ReadAfterWrite(fs2, BlockFile(i, Hash), hash);
  }

  /** After a successful write of hash.txt, block i's hash reads back as written. */
  lemma PutBlockReadsHash(fs: FileSystem, i: int, data: string, prev: string, hash: string, io: WriteOutcomes)
    requires Storable(hash) && io.hashOk
    ensures ReadFile(PutBlock(fs, i, data, prev, hash, io), BlockFile(i, Hash)) == hash
  {
    var fs1 := WriteFile(fs, BlockFile(i, Data), data, io.dataOk);
    ReadAfterWrite(WriteFile(fs1, BlockFile(i, Prev), prev, io.prevOk), BlockFile(i, Hash), hash);
  }

  /** A write of block i that fails leaves its own file reading as before, whatever the other two writes did. */
  lemma PutBlockFailedWriteKeeps(fs: FileSystem, i: int, data: string, prev: string, hash: string, io: WriteOutcomes, f: Field)
    requires !(match f case Data => io.dataOk case Prev => io.prevOk case Hash => io.hashOk)
    ensures ReadFile(PutBlock(fs, i, data, prev, hash, io), BlockFile(i, f)) == ReadFile(fs, BlockFile(i, f))
  {
  }

  /** Putting block i leaves what every other block reads unchanged. */
  lemma PutBlockFrame(fs: FileSystem, i: int, data: string, prev: string, hash: string, io: WriteOutcomes, q: Path)
    requires q.index != i
    ensures ReadFile(PutBlock(fs, i, data, prev, hash, io), q) == ReadFile(fs, q)
  {
  }
}
