/**
 * The store itself: the data file together with the in-memory index from
 * each key to the byte offset of its latest record. Opening the store
 * recovers the index from the file; `put` appends a record and then indexes
 * it; `get` looks the key up and reads the record at that offset.
 */
module MinkStore {

  import opened Text
  import opened Commands
  import opened LogStore
  import opened Recovery

  /** What a `get` reports: the key is not indexed, the value read, or a
      record line that has no second token (nothing is reported then). */
  datatype GetOutcome = NotFound | Found(value: string) | NoValue

  /** The value read from the record at `off`: its second token, if any. */
  function ValueAt(log: string, off: nat): GetOutcome {
    match SecondToken(ReadLine(log, off))
    case Some(v) => Found(v)
    case None => NoValue
  }

  /** What `get key` reports against a file and an index. A miss is a normal
      outcome, distinct from a record without a value. */
  function Lookup(log: string, index: map<string, nat>, key: string): GetOutcome {
    if key in index then ValueAt(log, index[key]) else NotFound
  }

  class MinkDB {
    var log: string
    var index: map<string, nat>

    /** The index is exactly what recovery over the file gives. */
    ghost predicate Valid()
      reads this
    {
      index == RecoverIndex(log)
    }

    /** Opens a data file whose current contents are `contents` and builds
        the index from them. */
    constructor Open(contents: string)
      ensures log == contents
      ensures Valid()
    {
      log := contents;
      index := map[];
      new;
      BuildIndex();
      assert map[] + RecoverIndex(log) == RecoverIndex(log);
    }

    /** Scans the file from offset 0, one line at a time, indexing the first
        token of every line at that line's offset. */
    method BuildIndex()
      modifies this`index
      ensures index == Scan(log, 0, old(index))
      ensures index == old(index) + RecoverIndex(log)
    {
      var offset: nat := 0;
      while true
        invariant offset <= |log|
        invariant Scan(log, offset, index) == Scan(log, 0, old(index))
        decreases |log| - offset
      {
        var line := ReadLine(log, offset);
        if |line| == 0 {
          break;
        }
        var next := offset + |line|;
        assert next == LineEnd(log, offset);
        match FirstToken(line) {
          case Some(key) =>
            index := index[key := offset];
          case None =>
        }
        offset := next;
      }
      ScanOver(log, old(index));
    }

    /** Appends `key value` as one line at the end of the file and then
        indexes the key at the offset where the line begins. A failed write
        leaves the index untouched. */
    method HandlePut(command: Command, ioError: bool) returns (ok: bool)
      requires |command.arguments| >= 2
      modifies this
      ensures ok == !ioError
      ensures !ok ==> log == old(log) && index == old(index)
      ensures ok ==> log == old(log) + Record(command.arguments[0], command.arguments[1])
      ensures ok ==> |log| == old(|log|) + |command.arguments[0]| + |command.arguments[1]| + 2
      ensures ok ==> index == old(index)[command.arguments[0] := old(|log|)]
      ensures ok ==> Terminated(log)
      ensures ok && IsToken(command.arguments[0]) && IsToken(command.arguments[1]) ==>
                Lookup(log, index, command.arguments[0]) == Found(command.arguments[1])
      ensures (ok && IsToken(command.arguments[0]) && IsToken(command.arguments[1]) &&
               old(Terminated(log)) && old(Valid())) ==> Valid()
    {
      var offset := |log|;
      if ioError {
        return false;
      }
      var key, value := command.arguments[0], command.arguments[1];
      ghost var before := log;
      log := log + Record(key, value);
      index := index[key := offset];
      ok := true;
      if IsToken(key) && IsToken(value) {
        PutThenGet(before, old(index), key, value);
        if Terminated(before) {
          RecoverAfterPut(before, key, value);
        }
      }
    }

    /** Looks the key up in the index and, on a hit, reads the record at the
        indexed offset and reports its second token. Nothing changes. */
    method HandleGet(command: Command) returns (r: GetOutcome)
      requires |command.arguments| >= 1
      ensures r == Lookup(log, index, command.arguments[0])
      ensures Valid() ==>
                (r == NotFound <==> forall off: nat :: !RecordsKey(log, off, command.arguments[0]))
      ensures Valid() && r != NotFound ==>
                exists off: nat :: LatestRecord(log, command.arguments[0], off) && r == ValueAt(log, off)
    {
      var key := command.arguments[0];
      if key in index {
        var line := ReadLine(log, index[key]);
        match SecondToken(line) {
          case Some(v) => r := Found(v);
          case None => r := NoValue;
        }
      } else {
        r := NotFound;
      }
      RecoverIndexLatest(log, key);
    }
  }

  /** A put followed by a get of the same key reads back the value put. */
  lemma PutThenGet(log: string, index: map<string, nat>, key: string, value: string)
    requires IsToken(key) && IsToken(value)
    ensures Lookup(log + Record(key, value), index[key := |log|], key) == Found(value)
  {
    ReadAppendedRecord(log, key, value);
    RecordTokens(key, value);
  }

  /** A put of one key does not change what a get of another key reports,
      as long as the file was terminated and the other key's offset lies
      inside it. */
  lemma PutKeepsOtherLookups(log: string, index: map<string, nat>, key: string, value: string, other: string)
    requires Terminated(log)
    requires other != key
    requires other in index ==> index[other] < |log|
    ensures Lookup(log + Record(key, value), index[key := |log|], other) == Lookup(log, index, other)
  {
    if other in index {
      ReadLineAppend(log, Record(key, value), index[other]);
    }
  }

  /** Last write wins across a restart: after two puts of the same key, the
      index recovered from the file reports the second value. This holds for
      any starting file: the first record ends in a line feed, so the second
      one always starts a line of its own. */
  lemma LastWriteWinsAfterRestart(log: string, key: string, v1: string, v2: string)
    requires IsToken(key) && IsToken(v1) && IsToken(v2)
    ensures var file := log + Record(key, v1) + Record(key, v2);
      Lookup(file, RecoverIndex(file), key) == Found(v2)
  {
    var first := log + Record(key, v1);
    assert Terminated(first);
    RecoverAfterPut(first, key, v2);
    PutThenGet(first, RecoverIndex(first), key, v2);
  }

  /** The terminated precondition of `PutKeepsOtherLookups` cannot be
      dropped. Take a file holding the single record `key value` with no
      final line feed (for instance "a 1"), with `key` indexed at 0. A put of
      `other v2` (for instance `b 2`) is glued onto that line, and a get of
      `key` then reports `value + other` ("1b") instead of `value` ("1"). */
  lemma UnterminatedPutChangesOtherGet(key: string, value: string, other: string, v2: string)
    requires IsToken(key) && IsToken(value) && IsToken(other) && IsToken(v2)
    requires key != other
    ensures var file := key + " " + value;
      && Lookup(file, map[key := 0], key) == Found(value)
      && Lookup(file + Record(other, v2), map[key := 0][other := |file|], key) == Found(value + other)
      && value + other != value
  {
    UnterminatedRecordGet(key, value);
    GluedRecordGet(key, value, other, v2);
  }

  /** A lone record without its line feed still reads back its value. */
  lemma UnterminatedRecordGet(key: string, value: string)
    requires IsToken(key) && IsToken(value)
    ensures Lookup(key + " " + value, map[key := 0], key) == Found(value)
  {
    var file := key + " " + value;
    SingleLine(key, value);
    TokensOfWordPrefix(value, []);
    assert value + [] == value;
    TokensOfWordPrefix(key, " " + value);
    assert (" " + value)[1..] == value;
    assert key + (" " + value) == file;
  }

  /** A record appended to the unterminated record `key value` is read as
      part of the same line, so `key`'s value absorbs the appended key. */
  lemma GluedRecordGet(key: string, value: string, other: string, v2: string)
    requires IsToken(key) && IsToken(value) && IsToken(other) && IsToken(v2)
    requires key != other
    ensures var file := key + " " + value;
      Lookup(file + Record(other, v2), map[key := 0][other := |file|], key) == Found(value + other)
  {
    var file := key + " " + value;
    var glued := value + other;
    assert IsToken(glued) by {
      forall i | 0 <= i < |glued|
        ensures !IsSpace(glued[i])
      {
        if i >= |value| {
          assert glued[i] == other[i - |value|];
        }
      }
    }
    var rest := glued + " " + v2;
    var tail := Record(glued, v2);
    assert tail == rest + "\n";
    var line := file + Record(other, v2);
    assert line == key + " " + rest + "\n";
    assert line == key + (" " + tail);
    TokenPairNoFeed(glued, v2);
    SingleLine(key, rest);
    RecordTokens(glued, v2);
    TokensOfWordPrefix(key, " " + tail);
    assert (" " + tail)[1..] == tail;
  }

  /** Two tokens joined by a space hold no line feed. */
  lemma TokenPairNoFeed(a: string, b: string)
    requires IsToken(a) && IsToken(b)
    ensures forall i :: 0 <= i < |a + " " + b| ==> (a + " " + b)[i] != '\n'
  {
  }

  /** A line `key rest`, with or without a final line feed, is read whole
      from offset 0 when `rest` holds no line feed. */
  lemma SingleLine(key: string, rest: string)
    requires IsToken(key)
    requires forall i :: 0 <= i < |rest| ==> rest[i] != '\n'
    ensures ReadLine(key + " " + rest, 0) == key + " " + rest
    ensures ReadLine(key + " " + rest + "\n", 0) == key + " " + rest + "\n"
  {
  }
}
