/**
 * Whitespace tokenising, as Rust's `str::split_whitespace` does it on ASCII
 * text: maximal runs of non-whitespace characters, in order, with every run
 * of whitespace (leading, trailing or repeated) acting as one separator.
 */
module Text {

  datatype Option<T> = None | Some(value: T)

  /** ASCII whitespace in the sense of Rust's `char::is_whitespace`:
      tab, line feed, vertical tab, form feed, carriage return and space. */
  predicate IsSpace(c: char) {
    c == ' ' || '\t' <= c <= '\r'
  }

  /** A token: non-empty and free of whitespace. */
  predicate IsToken(t: string) {
    t != [] && forall i :: 0 <= i < |t| ==> !IsSpace(t[i])
  }

  /** Length of the leading run of non-whitespace characters of `s`. */
  function WordLen(s: string): (n: nat)
    ensures n <= |s|
    ensures forall i :: 0 <= i < n ==> !IsSpace(s[i])
    ensures n < |s| ==> IsSpace(s[n])
  {
    if s == [] || IsSpace(s[0]) then 0 else 1 + WordLen(s[1..])
  }

  /** The tokens of `s`, in order. */
  function Tokens(s: string): (ts: seq<string>)
    ensures forall i :: 0 <= i < |ts| ==> IsToken(ts[i])
    decreases |s|
  {
    if s == [] then []
    else if IsSpace(s[0]) then Tokens(s[1..])
    else
      var n := WordLen(s);
      [s[..n]] + Tokens(s[n..])
  }

  function FirstToken(s: string): Option<string> {
    var ts := Tokens(s);
    if |ts| >= 1 then Some(ts[0]) else None
  }

  function SecondToken(s: string): Option<string> {
    var ts := Tokens(s);
    if |ts| >= 2 then Some(ts[1]) else None
  }

  /** The tokens joined by single spaces. */
  function Unwords(ts: seq<string>): string {
    if ts == [] then []
    else if |ts| == 1 then ts[0]
    else ts[0] + " " + Unwords(ts[1..])
  }

  /** A token followed by whitespace (or nothing) is split off as the first token. */
  lemma TokensOfWordPrefix(w: string, rest: string)
    requires IsToken(w)
    requires rest == [] || IsSpace(rest[0])
    ensures Tokens(w + rest) == [w] + Tokens(rest)
  {
    var s := w + rest;
    var n := WordLen(s);
    assert n == |w| by {
      if |w| < |s| { assert s[|w|] == rest[0]; }
      assert forall i :: 0 <= i < |w| ==> s[i] == w[i];
    }
    assert s[..n] == w;
    assert s[n..] == rest;
  }

  /** Tokenising text that is all whitespace gives no tokens, and only such text does. */
  lemma {:induction false} TokensEmptyIffBlank(s: string)
    ensures Tokens(s) == [] <==> forall i :: 0 <= i < |s| ==> IsSpace(s[i])
    decreases |s|
  {
    if s != [] && IsSpace(s[0]) {
      TokensEmptyIffBlank(s[1..]);
      assert forall i :: 1 <= i < |s| ==> s[i] == s[1..][i - 1];
    }
  }

  /** Tokenising undoes joining with single spaces. */
  lemma {:induction false} TokensUnwords(ts: seq<string>)
    requires forall i :: 0 <= i < |ts| ==> IsToken(ts[i])
    ensures Tokens(Unwords(ts)) == ts
  {
    if |ts| == 1 {
      TokensOfWordPrefix(ts[0], []);
      assert ts[0] + [] == ts[0];
    } else if |ts| > 1 {
      var rest := Unwords(ts[1..]);
      TokensUnwords(ts[1..]);
      assert Unwords(ts) == ts[0] + (" " + rest);
      TokensOfWordPrefix(ts[0], " " + rest);
      assert (" " + rest)[1..] == rest;
    }
  }
}
