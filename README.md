# Mini blockchain ledger — Dafny model

A model of the mini blockchain simulator in `main.c`. The program keeps a chain
of blocks on disk, one directory `bc_data/nodes/node<i>` per block, each holding
three one-line files: `data.txt` (the payload), `prev.txt` (the hash of the
previous block, empty for block 1) and `hash.txt` (the block's proof-of-work
hash). Appending a block writes the payload and predecessor hash, then searches
nonces 0, 1, 2, … until SHA-256 of `data ++ prev ++ "%d"(nonce)`, written in
lowercase hex, starts with `DIFFICULTY` (3) `'0'` characters, and writes that
hash. Verifying walks blocks 1..n, checking that each `prev.txt` equals the
previous block's `hash.txt` (empty for block 1) and that each `hash.txt` is
non-empty, and stops at the first failure.

Modules:

- `HexFormat` (`hex.dfy`) — the `%02x` formatting loop of `sha256()` over a
  65-character buffer, with its inverse `Unhex` and the round trip.
- `DecimalFormat` (`decimal.dfy`) — the `%d` text of the nonce and its inverse.
- `Store` (`store.dfy`) — the block files as a map from path to contents;
  `read_file` (first line, newline stripped, at most 2047 characters, missing
  file reads as `""`) and `write_file`, modelled as either succeeding and leaving the file holding the
  content, or failing to open the file and changing nothing (a partial write is
  not modelled; see the `Store.WriteFile` line of "## Left out").
- `Mining` (`mining.dfy`) — `starts_with_zeros`, `sha256()` and the nonce search
  of `create_block`. The SHA-256 compression function itself is a parameter
  `hasher: string -> Digest`.
- `Chain` (`chain.dfy`) — `check_chain` as a loop proved against the recursive
  reference `ChainReport`, with the fail-fast and tamper-detection properties.
- `Controller` (`ledger.dfy`) — the state of `main()` (`block_index`,
  `prev_hash`, the store) as the class `Ledger`, with menu commands 1 (append)
  and 2 (verify).

Behaviours of the code a reader might not expect, which the model keeps:

- There is no separate "missing block" report. A missing `prev.txt` or
  `hash.txt` reads as `""`, so a missing block shows up as a broken link or a
  missing hash (`Chain.ChainReport`).
- Appending is not all-or-nothing. If `prev.txt` cannot be rewritten but
  `hash.txt` can, the new hash reads back, `main` advances `block_index`, and
  the chain is broken at the new block whenever the stale `prev.txt` differs
  from the expected predecessor (`Chain.StalePrevBreaksChainAt`;
  `Chain.StalePrevBreaksChain` is a concrete instance). `Controller.Ledger.Append` therefore
  promises an intact chain only when the `prev.txt` write succeeds.
- On start the program does not rebuild `block_index` or `prev_hash` from
  existing files. It starts at block 1 with an empty predecessor whatever the
  store holds (`Controller.Ledger.constructor`), and later appends overwrite
  the old blocks.
- A changed hash is not reported at its own block. Changing the `hash.txt` of
  block j < last breaks the link of block j+1 (`Chain.TamperHashChanged`).
  Changing the `hash.txt` of the last checked block to any non-empty value is
  not reported at all, since no later `prev.txt` is compared with it
  (`Chain.TamperLastHashUndetected`).
- `check_chain` never reads `data.txt`, so editing a payload is never reported
  (`Chain.TamperDataUndetected`).
- The files may be edited between commands. Command 1 still appends against the
  `prev_hash` held in memory, so `Controller.Ledger.Append` does not assume that
  the ledger's state matches the store. It restores that match whenever the new
  hash reads back.

## Model

| member | source | states |
|---|---|---|
| HexFormat.HexByte | main.c:33 | `%02x` of one byte is two lowercase hexadecimal digits whose values, high then low, make up the byte. |
| HexFormat.Hex | main.c:32-34 | The text of a byte sequence has exactly two characters per byte. |
| HexFormat.FormatDigest | main.c:32-35 | The 65-character buffer holds the hex text of the digest in positions 0..63 and the terminator at 64. |
| HexFormat.HexAt | main.c:32-33 | Byte i of the digest becomes characters 2i and 2i+1: high nibble first, then low nibble, as `%02x` writes it. |
| HexFormat.HexIsLowercase | main.c:33 | Every character of the formatted digest is a lowercase hexadecimal digit. |
| HexFormat.UnhexHex | main.c:32-35 | Formatting loses nothing: decoding the hex text gives back the digest bytes. |
| HexFormat.HexAppend | main.c:32-34 | Formatting works byte by byte: the text of a concatenation is the concatenation of the texts. |
| DecimalFormat.Decimal | main.c:119 | `%d` of a non-negative nonce is a non-empty string of decimal digits with no leading zero; 0 is written as exactly "0". |
| DecimalFormat.ParseDecimalOfDecimal | main.c:119 | The `%d` text of a nonce parses back to the nonce. |
| DecimalFormat.DecimalInjective | main.c:119 | Distinct nonces give distinct `%d` texts. |
| Mining.StartsWithZeros | main.c:40-45 | Returns 1 exactly when the first `zeros` characters are all '0', and 0 otherwise. It always returns 1 for `zeros <= 0`. A hash shorter than `zeros` is rejected because its terminator is not '0'. |
| Mining.Sha256 | main.c:25-36 | The result is the 64-character lowercase hex text of the digest of the input. |
| Mining.Candidate | main.c:119 | The string hashed for a nonce is data, then prev, then the `%d` text of the nonce, with nothing in between. |
| Mining.Attempt | main.c:119-122 | One pass of the do-while body returns the hash of the nonce's candidate and 1 exactly when that nonce meets the difficulty, else 0. |
| Mining.CandidateInjective | main.c:119 | Different nonces give different strings to hash, so the search never hashes the same candidate twice. |
| Mining.Mine | main.c:113-122 | Terminates whenever some nonce is accepted. The hash belongs to nonce `tries-1`, meets the difficulty, and every smaller nonce was rejected. With difficulty `<= 0` exactly one candidate is hashed. |
| Mining.SealedUnique | main.c:115-122 | The search has a single possible outcome: the least accepted nonce and its hash. |
| Store.ReadFile | main.c:78-92 | A file that does not exist (fopen fails) reads as the empty string. |
| Store.WriteFile | main.c:68-74 | When the write succeeds the file holds exactly the content afterwards; when fopen fails the store is unchanged. |
| Store.PutBlock | main.c:110-126 | Each of the three writes of create_block that succeeds leaves its file holding data, prev or hash. If all three fail, the store is unchanged. |
| Store.ReadFileFirstLine | main.c:85-86 | An existing file reads as a prefix of its contents without a newline. The prefix ends at the end of the contents, after 2047 characters, or just before the first newline. |
| Store.ReadFileStorable | main.c:78-92 | `read_file` always returns one line without a newline, shorter than the 2048-byte buffer, and `""` for a missing file. |
| Store.WriteFileFrame | main.c:68-74 | Writing one file (successfully or not) changes nothing that any other file reads. |
| Store.ReadAfterWrite | main.c:68-92 | A one-line string of fewer than 2048 characters reads back exactly after a successful write. |
| Store.GetAfterPut | main.c:105-111 | When all three writes of a block succeed, reading the block's files gives back data, prev and hash. |
| Store.PutBlockReadsHash | main.c:126 | After a successful write of `hash.txt`, the block's hash reads back as written, whatever the other two writes did. |
| Store.PutBlockFailedWriteKeeps | main.c:68-74 | A write of block i that fails (fopen returns NULL) leaves its own file reading as before, whatever the other two writes of the block did. |
| Store.PutBlockFrame | main.c:100-111 | Creating block i changes nothing that any other block's files read. |
| Chain.CheckChain | main.c:134-153 | The loop returns exactly the reference report `ChainReport` for blocks 1..last_index. |
| Chain.ChainOkIff | main.c:137-152 | The report is OK exactly when every block 1..last links to its predecessor's hash and has a non-empty hash. |
| Chain.ChainFailureIff | main.c:137-149 | A broken link at j is reported exactly when blocks before j are sound and block j's prev differs. A missing hash at j is reported exactly when blocks before j are sound, j links, and j's hash reads empty. |
| Chain.FailureSticks | main.c:140-149 | Once a prefix fails, checking more blocks reports the same failure. |
| Chain.ReportLocal | main.c:137-151 | The report for blocks 1..n depends only on what those blocks' files read. |
| Chain.FailFast | main.c:140-149 | A failure at j is reported by any store that agrees on blocks 1..j, for any checked length of at least j. Nothing after j is looked at. |
| Chain.OkPrefix | main.c:137-151 | An intact chain up to `last` is intact up to every earlier index. |
| Chain.TamperPrev | main.c:138-143 | Changing block j's `prev.txt` in an intact chain is reported as a broken link at exactly j. |
| Chain.TamperHashEmpty | main.c:144-149 | Emptying block j's `hash.txt` in an intact chain is reported as a missing hash at exactly j. |
| Chain.TamperHashChanged | main.c:140-150 | For j < last, changing block j's `hash.txt` to another non-empty value in an intact chain is reported as a broken link at j+1. |
| Chain.TamperLastHashUndetected | main.c:137-152 | Changing the `hash.txt` of the last checked block of an intact chain to any non-empty value still reports OK. |
| Chain.TamperDataUndetected | main.c:134-153 | Changing any `data.txt` leaves the report unchanged. |
| Chain.PutBlockKeepsExpected | main.c:100-111 | Creating block i does not change the predecessor hash block i must name. |
| Chain.PutBlockKeepsEarlier | main.c:100-111 | Creating block i does not change the report for blocks 1..i-1. |
| Chain.PutBlockKeepsIntact | main.c:100-111 | If blocks 1..i-1 are intact, they stay intact after block i is created. |
| Chain.AppendKeepsChain | main.c:182-192 | Appending block i against the expected predecessor extends an intact chain to block i, provided `prev.txt` was written and the new hash reads back non-empty. |
| Chain.StalePrevBreaksChainAt | main.c:110-126 | For any store whose blocks 1..i-1 are intact and whose block i `prev.txt` reads other than the expected predecessor: if the `prev.txt` write fails and the `hash.txt` write succeeds, the hash reads back (so main advances) yet the chain is reported broken at block i. |
| Chain.StalePrevBreaksChain | main.c:110-111 | Exhibits one concrete store (block 1 with a stale `prev.txt`) where the failed `prev.txt` write leaves the chain broken at block 1 while the hash reads back. |
| Controller.Ledger.constructor | main.c:157-159 | The program starts at block 1 with an empty predecessor hash over whatever the store holds. That state is consistent, and the (empty) checked chain is intact. |
| Controller.CreateBlock | main.c:100-128 | Writes data and prev, mines the first accepted nonce, and writes the hash. Each write may fail independently and then leaves its file as it was. It changes only the files. |
| Controller.Ledger.Append | main.c:178-193 | Command 1 advances `block_index` and sets `prev_hash` to the read-back hash exactly when it reads back non-empty, and otherwise changes neither. A successfully written hash always reads back. A non-empty read-back makes the state match the store, and a state that matched still matches. If the state matched and the chain was intact, the chain stays intact when `prev.txt` is written or when the new hash does not read back (a failed append is recoverable). |
| Controller.Ledger.Verify | main.c:194-196 | Command 2 reports `check_chain(block_index - 1)`, which is OK exactly when the chain of appended blocks is intact. |
| Controller.SealedHashStorable | main.c:32-35 | A mined hash is 64 hex digits, so it is one line that fits the read buffer and is never empty. |

## Left out

- The SHA-256 compression (`SHA256_Init/Update/Final`) is an external library. It is the parameter `hasher`, an arbitrary function from strings to 32-byte digests.
- `create_block_folder` (`mkdir`/`stat`) and the removal of a stray `bc_data` file at start-up are directory handling. A failure to create the directory shows up only as failed writes, through `WriteOutcomes`.
- `clock()` timing, every `printf`, and the `scanf`/`getchar` menu loop are I/O. Each menu command is a method of `Ledger`, and `exit` is not modelled.
- The payload is read from stdin with `fgets(data, 256, …)` and its newline stripped. Here the payload is a method parameter, so the 255-character cap on it is not modelled.
- Fixed C buffers are not modelled: `combined[4096]` (sprintf overflow for long data), `prev_hash[65]` (strcpy of a read-back hash longer than 64 characters), and the sharing of read_file's one static buffer between calls. The model treats strings as unbounded values; the 2047-character cap of `read_file` is modelled.
- Store.WriteFile: a successful fopen is assumed to write the whole content. A truncating open followed by a failing `fprintf` or `fclose` (disk full, I/O error), which leaves the file empty or holding a prefix, is not modelled. So `Controller.Ledger.Append`'s promise that a written hash reads back rests on that assumption.
- Mining.Mine: the C loop has no bound, and `int nonce` would overflow after 2^31 tries. The model uses an unbounded nonce and proves termination only under the precondition that some nonce is accepted.
- `block_index` is an `int` in C; its overflow is not modelled.
- `MAX_BLOCKS` is declared but never used by the program.
- A Dafny `char` stands for one byte of the C string: `fgets` counts bytes, so the 2047-character cap of `read_file` and `Storable` are stated in bytes. Multi-byte encodings are not modelled.
- Strings containing NUL characters are not modelled: C would stop at the first NUL, which a SHA-256 hex string or a typed payload never contains.
