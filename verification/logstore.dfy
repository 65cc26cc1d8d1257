/**
 * The data file as a sequence of characters (one character per byte: the
 * log is ASCII text), read a line at a time and extended only by appending
 * `key ' ' value '\n'` records.
 */
module LogStore {

  import opened Text

  /** Where one line read starting at `off` stops: just past the first line
      feed at or after `off`, or at the end of the file when there is none.
      At or past the end of the file nothing is read. */
  function LineEnd(log: string, off: nat): (e: nat)
    ensures off < |log| ==> off < e <= |log|
    ensures off >= |log| ==> e == off
    ensures forall j :: off <= j < e - 1 ==> log[j] != '\n'
    ensures off < |log| ==> e == |log| || log[e - 1] == '\n'
    decreases |log| - off
  {
    if off >= |log| then off
    else if log[off] == '\n' then off + 1
    else LineEnd(log, off + 1)
  }

  /** The line read at byte offset `off`, line feed included; empty when
      `off` is at or past the end of the file. */
  function ReadLine(log: string, off: nat): string {
    if off >= |log| then [] else log[off..LineEnd(log, off)]
  }

  /** The encoding of one record as the writer produces it. */
  function Record(key: string, value: string): string {
    key + " " + value + "\n"
  }

  /** The file is empty or its last byte is a line feed. */
  predicate Terminated(log: string) {
    log == [] || log[|log| - 1] == '\n'
  }

  /** `off` is the first byte of a line of `log`. */
  predicate IsLineStart(log: string, off: nat) {
    off < |log| && (off == 0 || log[off - 1] == '\n')
  }

  /** A line read at `p` runs up to the next line start: no line starts
      strictly inside it. */
  lemma NextLineStart(log: string, p: nat, o: nat)
    requires p < o && IsLineStart(log, o)
    ensures LineEnd(log, p) <= o
  {
  }

  /** In a terminated file every line read inside it ends inside it, so
      appending more text does not move the end of that line. */
  lemma {:induction false} LineEndAppend(a: string, b: string, off: nat)
    requires Terminated(a) && off < |a|
    ensures LineEnd(a + b, off) == LineEnd(a, off)
    decreases |a| - off
  {
    assert (a + b)[off] == a[off];
    if a[off] != '\n' {
      LineEndAppend(a, b, off + 1);
    }
  }

  /** Appending to a terminated file does not change any line read from
      inside the old contents. */
  lemma ReadLineAppend(a: string, b: string, off: nat)
    requires Terminated(a) && off < |a|
    ensures ReadLine(a + b, off) == ReadLine(a, off)
  {
    LineEndAppend(a, b, off);
    assert (a + b)[off..LineEnd(a, off)] == a[off..LineEnd(a, off)];
  }

  /** A record whose key and value are tokens is exactly one line, of
      |key| + 1 + |value| + 1 bytes. */
  lemma RecordIsOneLine(log: string, key: string, value: string)
    requires IsToken(key) && IsToken(value)
    ensures |Record(key, value)| == |key| + |value| + 2
    ensures LineEnd(log + Record(key, value), |log|) == |log + Record(key, value)|
  {
  }

  /** A record's tokens are its key and its value. */
  lemma RecordTokens(key: string, value: string)
    requires IsToken(key) && IsToken(value)
    ensures Tokens(Record(key, value)) == [key, value]
  {
    var tail := " " + value + "\n";
    assert Record(key, value) == key + tail;
    assert tail[1..] == value + "\n";
    calc {
      Tokens(Record(key, value));
      { TokensOfWordPrefix(key, tail); }
      [key] + Tokens(tail);
      [key] + Tokens(value + "\n");
      { TokensOfWordPrefix(value, "\n"); }
      [key] + ([value] + Tokens("\n"));
      { assert Tokens("\n") == Tokens("\n"[1..]) == []; }
      [key, value];
    }
  }

  /** Reading at the offset where a record was appended yields that record. */
  lemma ReadAppendedRecord(log: string, key: string, value: string)
    requires IsToken(key) && IsToken(value)
    ensures ReadLine(log + Record(key, value), |log|) == Record(key, value)
  {
  }
}
