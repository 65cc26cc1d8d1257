/**
 * Rebuilding the key index from the log: scan the file line by line from
 * offset 0, record `index[first token] := offset` for every line that has a
 * token, and advance the offset by the full length of every line.
 */
module Recovery {

  import opened Text
  import opened LogStore

  /** One step of the scan: a line whose first token is `key`, read at
      offset `off`, records `index[key] := off`; a line without a token
      records nothing. */
  function Step(line: string, off: nat, index: map<string, nat>): map<string, nat> {
    match FirstToken(line)
    case Some(key) => index[key := off]
    case None => index
  }

  /** The scan of `log` from offset `off` to the end of file, starting from
      the partial index `index`. */
  function Scan(log: string, off: nat, index: map<string, nat>): map<string, nat>
    decreases |log| - off
  {
    if off >= |log| then index
    else
      var e := LineEnd(log, off);
      Scan(log, e, Step(log[off..e], off, index))
  }

  /** The index recovered from a whole log, starting from an empty map. */
  function RecoverIndex(log: string): map<string, nat> {
    Scan(log, 0, map[])
  }

  /** `off` is where a line of `log` starts, or the end of the file. */
  predicate AtLineBoundary(log: string, off: nat) {
    off <= |log| && (off == 0 || off == |log| || log[off - 1] == '\n')
  }

  /** The line starting at `off` is a record whose first token is `key`. */
  ghost predicate RecordsKey(log: string, off: nat, key: string) {
    IsLineStart(log, off) && FirstToken(ReadLine(log, off)) == Some(key)
  }

  /** `off` starts the last line of `log` whose first token is `key`. */
  ghost predicate LatestRecord(log: string, key: string, off: nat) {
    RecordsKey(log, off, key) && forall o: nat :: RecordsKey(log, o, key) ==> o <= off
  }

  /** The scan steps from one line boundary to the next. */
  lemma NextBoundary(log: string, off: nat)
    requires AtLineBoundary(log, off) && off < |log|
    ensures IsLineStart(log, off)
    ensures AtLineBoundary(log, LineEnd(log, off))
  {
  }

  /** Scanning from a line boundary `p`: a key that has a record at or after
      `p` ends up at the start of its last such record; any other key keeps
      whatever the partial index said about it. */
  lemma {:induction false} ScanKey(log: string, p: nat, index: map<string, nat>, key: string)
    requires AtLineBoundary(log, p)
    ensures var r := Scan(log, p, index);
      if exists off :: p <= off && RecordsKey(log, off, key) then
        key in r && p <= r[key] && LatestRecord(log, key, r[key])
      else
        (key in r <==> key in index) && (key in index ==> r[key] == index[key])
    decreases |log| - p
  {
    if p < |log| {
      var q := LineEnd(log, p);
      var line := log[p..q];
      var next := Step(line, p, index);
      NextBoundary(log, p);
      ScanKey(log, q, next, key);
      assert Scan(log, p, index) == Scan(log, q, next);
      assert ReadLine(log, p) == line;
      forall o: nat | p < o && IsLineStart(log, o)
        ensures q <= o
      {
        NextLineStart(log, p, o);
      }
      if exists off :: q <= off && RecordsKey(log, off, key) {
        var off :| q <= off && RecordsKey(log, off, key);
        assert p <= off;
      } else if FirstToken(line) == Some(key) {
        assert RecordsKey(log, p, key);
      }
    }
  }

  /** Last write wins: a key is in the recovered index exactly when some line
      of the log starts with it, and then its offset is the start of the
      last such line (so it is a line start inside the log). */
  lemma RecoverIndexLatest(log: string, key: string)
    ensures key in RecoverIndex(log) <==> exists off :: RecordsKey(log, off, key)
    ensures key in RecoverIndex(log) ==> LatestRecord(log, key, RecoverIndex(log)[key])
  {
    ScanKey(log, 0, map[], key);
  }

  /** Every offset in the recovered index is the start of a line of the log,
      and so lies strictly below the length of the log. */
  lemma RecoveredOffsetsAreLineStarts(log: string)
    ensures forall key :: key in RecoverIndex(log) ==> IsLineStart(log, RecoverIndex(log)[key])
  {
    forall key | key in RecoverIndex(log)
      ensures IsLineStart(log, RecoverIndex(log)[key])
    {
      RecoverIndexLatest(log, key);
    }
  }

  /** Entries already in the index before the scan are overridden, never
      consulted: scanning from `m1 + m2` is scanning from `m2` laid over `m1`. */
  lemma {:induction false} ScanMerge(log: string, off: nat, m1: map<string, nat>, m2: map<string, nat>)
    ensures Scan(log, off, m1 + m2) == m1 + Scan(log, off, m2)
    decreases |log| - off
  {
    if off < |log| {
      var e := LineEnd(log, off);
      var line := log[off..e];
      assert Step(line, off, m1 + m2) == m1 + Step(line, off, m2);
      ScanMerge(log, e, m1, Step(line, off, m2));
    }
  }

  /** Scanning from a non-empty index overlays the recovered index on it. */
  lemma ScanOver(log: string, m: map<string, nat>)
    ensures Scan(log, 0, m) == m + RecoverIndex(log)
  {
    ScanMerge(log, 0, m, map[]);
    assert m + map[] == m;
  }

  /** Running recovery a second time over the same log changes nothing. */
  lemma RecoveryIdempotent(log: string, m: map<string, nat>)
    ensures Scan(log, 0, Scan(log, 0, m)) == Scan(log, 0, m)
  {
    ScanOver(log, m);
    ScanOver(log, m + RecoverIndex(log));
  }

  /** Over a terminated prefix `a`, scanning `a + b` visits the same lines as
      scanning `a` alone, and then carries on at the end of `a`. */
  lemma {:induction false} ScanAppend(a: string, b: string, p: nat, index: map<string, nat>)
    requires Terminated(a) && p <= |a|
    ensures Scan(a + b, p, index) == Scan(a + b, |a|, Scan(a, p, index))
    decreases |a| - p
  {
    if p < |a| {
      var e := LineEnd(a, p);
      var next := Step(a[p..e], p, index);
      LineEndAppend(a, b, p);
      assert (a + b)[p..e] == a[p..e];
      ScanAppend(a, b, e, next);
    }
  }

  /** Scanning one appended record indexes its key at the record's offset. */
  lemma ScanRecord(log: string, key: string, value: string, index: map<string, nat>)
    requires IsToken(key) && IsToken(value)
    ensures Scan(log + Record(key, value), |log|, index) == index[key := |log|]
  {
    var rec := Record(key, value);
    RecordIsOneLine(log, key, value);
    RecordTokens(key, value);
    assert (log + rec)[|log|..|log + rec|] == rec;
  }

  /** Appending a record to a terminated log and indexing it at the old end
      of file gives the index that recovery over the new log gives. */
  lemma RecoverAfterPut(log: string, key: string, value: string)
    requires Terminated(log)
    requires IsToken(key) && IsToken(value)
    ensures RecoverIndex(log + Record(key, value)) == RecoverIndex(log)[key := |log|]
  {
    ScanAppend(log, Record(key, value), 0, map[]);
    ScanRecord(log, key, value, RecoverIndex(log));
  }

  /** The terminated precondition above cannot be dropped: on a file whose
      last line has no line feed, "a", the record "b 1\n" is glued to that
      line, and recovery sees one key "ab" where the incremental index has
      "a" and "b". */
  lemma UnterminatedPutDiverges()
    ensures RecoverIndex("a" + Record("b", "1")) != RecoverIndex("a")["b" := 1]
  {
    assert "a" + Record("b", "1") == [] + Record("ab", "1");
    ScanRecord([], "ab", "1", map[]);
    assert "a" !in RecoverIndex("a" + Record("b", "1"));
    TokensOfWordPrefix("a", []);
    assert "a" + [] == "a";
    assert RecordsKey("a", 0, "a");
    RecoverIndexLatest("a", "a");
  }
}
