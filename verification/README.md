# MinkDB, modelled in Dafny

MinkDB is a tiny append-only key-value store. Its data file is a log of
text records, one per line, each `key value` followed by a line feed. An
in-memory index maps every key to the byte offset of the line that holds its
latest value. The store works as follows:

- Opening the store rebuilds that index by reading the file from offset 0,
  one line at a time. Each line whose first whitespace-separated token is
  `k` sets `index[k]` to the line's offset, and the offset then advances by
  the line's full length. Blank lines are skipped but still counted.
- `put key value` appends a record at the end of the file and then indexes
  the key at the offset where the record starts.
- `get key` looks the key up, reads one line at the indexed offset and
  reports that line's second token.
- Commands come from a whitespace tokeniser. Blank input is rejected, and so
  is input with a single token. Otherwise the first token is the operation
  and the rest are its arguments.

The project is organised as follows:

- `text.dfy` (module `Text`) holds whitespace tokenising, as Rust's
  `split_whitespace` does it on ASCII text.
- `commands.dfy` (module `Commands`) holds the `Command` record and
  `parse_command`.
- `logstore.dfy` (module `LogStore`) models the data file as a `string`,
  with one character per byte. It covers reading a line at an offset, the
  record encoding and facts about appending.
- `recovery.dfy` (module `Recovery`) holds the index rebuild as a function
  (`Scan`/`RecoverIndex`) and its properties. These properties are:
  - last write wins;
  - recovered offsets are line starts;
  - recovery is idempotent;
  - an incremental put agrees with recovery from scratch.
- `minkdb.dfy` (module `MinkStore`) holds the store as a class `MinkDB`. The
  class has the file contents (`log`) and the `index` as fields. It provides
  the imperative `BuildIndex` loop, `HandlePut`, `HandleGet`, and lemmas
  relating puts and gets. The class invariant `Valid()` says that the index
  is exactly the one recovered from the file.

## Model

| member | source | states |
|---|---|---|
| Text.Tokens | src/main.rs:109 | every token produced is non-empty and contains no whitespace |
| Text.TokensOfWordPrefix | src/main.rs:46 | a token followed by whitespace or by nothing is split off as the first token, and tokenising continues on the rest |
| Text.TokensEmptyIffBlank | src/main.rs:109-113 | the input yields no tokens exactly when every character is whitespace |
| Text.TokensUnwords | src/main.rs:63 | tokenising tokens joined by single spaces gives back the same tokens, in order |
| Commands.ParseCommand | src/main.rs:108-126 | the result is `EmptyInput` exactly when the input is blank, and `MissingArguments` exactly when it has one token. Otherwise the operation followed by the arguments is the input's token sequence, with at least one argument. |
| Commands.ParseUnwords | src/main.rs:108-126 | a line of at least two tokens parses to the first token as operation and the remaining tokens, in order, as arguments |
| LogStore.LineEnd | src/main.rs:36 | a line read at an offset inside the file is non-empty and stays inside the file. It has no line feed before its last byte, and it ends at a line feed or at end of file. At or past end of file nothing is read. |
| LogStore.NextLineStart | src/main.rs:36-51 | no line starts strictly inside a line read, so the scan never skips a line start |
| LogStore.LineEndAppend | src/main.rs:63-66 | appending to a file whose last byte is a line feed does not move the end of any line inside the old contents |
| LogStore.ReadLineAppend | src/main.rs:78-83 | appending to such a file does not change any line read at an old offset |
| LogStore.RecordIsOneLine | src/main.rs:63 | a record of token key and value is as long as key and value together plus 2 bytes and is read back as one single line |
| LogStore.RecordTokens | src/main.rs:63 | the tokens of a record are exactly its key and its value |
| LogStore.ReadAppendedRecord | src/main.rs:78-83 | reading at the offset where a record was appended yields exactly that record |
| Recovery.NextBoundary | src/main.rs:51 | advancing the offset by the bytes read moves from one line boundary to the next |
| Recovery.ScanKey | src/main.rs:34-52 | scanning from a line boundary leaves a key that has a record ahead at the start of its last record. Any other key keeps its entry in the partial index. |
| Recovery.RecoverIndexLatest | src/main.rs:28-55 | a key is in the recovered index exactly when some line starts with it. Its offset is then the start of the last such line (last write wins). |
| Recovery.RecoveredOffsetsAreLineStarts | src/main.rs:46-51 | every recovered offset is the first byte of a line and lies below the file length |
| Recovery.ScanMerge | src/main.rs:34-52 | entries present before the scan are overridden and never consulted |
| Recovery.ScanOver | src/main.rs:28-55 | rebuilding over an existing index overlays the recovered index on it |
| Recovery.RecoveryIdempotent | src/main.rs:28-55 | running the rebuild a second time over the same file changes nothing |
| Recovery.ScanAppend | src/main.rs:34-52 | over a file whose last byte is a line feed, scanning the file plus appended text first visits exactly the old lines |
| Recovery.ScanRecord | src/main.rs:46-51 | scanning one appended record indexes its key at the record's offset |
| Recovery.RecoverAfterPut | src/main.rs:57-67 | appending a record to a line-feed-terminated file and indexing the key at the old end of file gives the same index as recovery over the new file |
| Recovery.UnterminatedPutDiverges | src/main.rs:58-67 | the previous row needs the terminated file: on the file `a` the record `b 1` is glued to the last line, and recovery disagrees with the incremental index |
| MinkStore.MinkDB.Open | src/main.rs:12-26 | opening keeps the file contents and leaves the index equal to the one recovered from them |
| MinkStore.MinkDB.BuildIndex | src/main.rs:28-55 | the read-a-line loop leaves the index equal to the old index overlaid with the one recovered from the whole file |
| MinkStore.MinkDB.HandlePut | src/main.rs:57-71 | on I/O failure nothing changes. On success the record is appended, so the old file is a prefix and the file grows by the key and value lengths plus 2; only `index[key]` changes, and it becomes the old file length. A get of the key then returns the value, and the index-equals-recovery invariant is kept on a terminated file. |
| MinkStore.MinkDB.HandleGet | src/main.rs:73-99 | changes nothing and reports the lookup result. Under the invariant, "not found" means no line of the file starts with the key; otherwise the value comes from the key's last record. |
| MinkStore.PutThenGet | src/main.rs:57-90 | after a put of token key and value, a get of that key returns the value |
| MinkStore.PutKeepsOtherLookups | src/main.rs:67-83 | a put of one key leaves what a get of any other key reports unchanged, provided the file was empty or ended in a line feed and the other key's indexed offset lies inside the file |
| MinkStore.UnterminatedPutChangesOtherGet | src/main.rs:58-83 | the conditions of the previous row are needed. On a file holding `key value` with no final line feed (such as `a 1`), a put of `other v2` (such as `b 2`) is glued onto that line, and a get of `key` then reports `value` followed by `other` (`1b`) instead of `value` |
| MinkStore.UnterminatedRecordGet | src/main.rs:76-90 | a lone record without its final line feed still reads back its value |
| MinkStore.GluedRecordGet | src/main.rs:58-90 | a record appended to such a file is read as part of its last line |
| MinkStore.LastWriteWinsAfterRestart | src/main.rs:28-67 | after two puts of the same key to any file, including one that does not end in a line feed, the index recovered from the file on restart reports the second value |

## Left out

- File I/O is modelled as a `string` holding the file contents. There are no
  real reads, seeks or writes.
- Read failures are not modelled: those of `build_index` while opening
  (which abort `MinkDB::new`) and those of `handle_get`.
- MinkStore.MinkDB.HandlePut models a failed seek, write or flush by the
  `ioError` parameter and then leaves file and index as they were. It does
  not model a partial write that leaves a fragment of a record in the file.
- The REPL in `main` is left out: reading standard input, dispatching on
  `put`/`get`/anything else, and every `println!` message.
  - `get` reports a `GetOutcome` value instead of printing.
  - A record line without a second token yields `NoValue`, where the source
    prints nothing.
- MinkStore.MinkDB.HandlePut requires at least two arguments, because the
  source indexes `arguments[1]` and panics on a `put` with only a key. The
  panic itself is not modelled.
- The free functions `handle_put` and `handle_get` (src/main.rs:128-162) are
  never called and are not part of this model.
- concurrent.py is not part of this model. It is an unrelated fragment of
  a socket server that computes Fibonacci numbers and never talks to MinkDB.
- Text is ASCII with one character per byte. The following are not modelled:
  - UTF-8 decoding failures of `read_line`;
  - Unicode whitespace beyond ASCII;
  - multi-byte characters in offsets.
- Offsets are unbounded naturals; the `u64` offset counter and its overflow
  are not modelled.
- Recovery.RecoverAfterPut, and with it the `Valid()` clause of
  `MinkStore.MinkDB.HandlePut`, holds only when the file is empty or ends in
  a line feed. `Recovery.UnterminatedPutDiverges` shows that the condition
  is needed. A file the store writes in full meets it. A put whose write
  fails part-way leaves an unterminated fragment in the file (not modelled;
  see the MinkStore.MinkDB.HandlePut line above), and the next put then
  falls into this case.
- MinkStore.PutKeepsOtherLookups holds only on a file that is empty or ends
  in a line feed. The source appends a record without first adding a line
  feed. So when the last line lacks one, a put corrupts the value of the
  key on that line. `MinkStore.UnterminatedPutChangesOtherGet` shows this.
  Such a last line comes from a hand edit, or from an earlier put whose
  write failed part-way and left a fragment of its record behind.
