/** Python's `str.strip()` and `str.split()` with no arguments, as the label
    reader applies them to every line before unpacking it. */
module Tokens {

  /** The characters that Python's `str.isspace` accepts, which are the ones
      `strip()` removes and `split()` separates on. */
  predicate IsSpace(c: char) {
    var n := c as int;
    n == 0x20 || 0x09 <= n <= 0x0D || 0x1C <= n <= 0x1F || n == 0x85 || n == 0xA0 ||
    n == 0x1680 || 0x2000 <= n <= 0x200A || n == 0x2028 || n == 0x2029 ||
    n == 0x202F || n == 0x205F || n == 0x3000
  }

  predicate AllSpace(s: string) {
    forall i :: 0 <= i < |s| ==> IsSpace(s[i])
  }

  /** A token as `split()` produces it: non-empty, with no whitespace in it. */
  predicate IsWord(w: string) {
    |w| > 0 && forall i :: 0 <= i < |w| ==> !IsSpace(w[i])
  }

  /** Number of whitespace characters at the start of `s`. */
  function LeadingSpace(s: string): (n: nat)
    ensures n <= |s| && AllSpace(s[..n])
    ensures n == |s| || !IsSpace(s[n])
    decreases |s|
  {
    if s == [] || !IsSpace(s[0]) then 0
    else
      1 + LeadingSpace(s[1..])
  }

  /** Number of whitespace characters at the end of `s`. */
  function TrailingSpace(s: string): (n: nat)
    ensures n <= |s| && AllSpace(s[|s| - n..])
    ensures n == |s| || !IsSpace(s[|s| - n - 1])
    decreases |s|
  {
    if s == [] || !IsSpace(s[|s| - 1]) then 0
    else
      1 + TrailingSpace(s[..|s| - 1])
  }

  /** `s.strip()`: `s` without its leading and trailing whitespace. The result
      neither starts nor ends with whitespace and splits into the same tokens
      as `s`, so the `strip()` before `split()` in the label reader is
      redundant. */
  function Strip(s: string): (r: string)
    ensures |r| <= |s|
    ensures r == [] || (!IsSpace(r[0]) && !IsSpace(r[|r| - 1]))
    ensures Split(r) == Split(s)
  {
    var lo := LeadingSpace(s);
    SplitSkipsLeadingSpace(s, lo);
    var t := s[lo..];
    var n := TrailingSpace(t);
    SplitSkipsTrailingSpace(t, n);
    t[..|t| - n]
  }

  /** Length of the run of non-whitespace characters at the start of `s`. */
  function WordLength(s: string): (n: nat)
    ensures n <= |s|
    ensures forall i :: 0 <= i < n ==> !IsSpace(s[i])
    ensures n == |s| || IsSpace(s[n])
    decreases |s|
  {
    if s == [] || IsSpace(s[0]) then 0 else 1 + WordLength(s[1..])
  }

  /** `s.split()`: the maximal runs of non-whitespace characters, in order. */
  function Split(s: string): (ws: seq<string>)
    ensures forall i :: 0 <= i < |ws| ==> IsWord(ws[i])
    decreases |s|
  {
    if s == [] then []
    else if IsSpace(s[0]) then Split(s[1..])
    else
      var n := WordLength(s);
      [s[..n]] + Split(s[n..])
  }

  /** `" ".join(ws)`: the tokens with one space between neighbours. */
  function Unwords(ws: seq<string>): string
    decreases |ws|
  {
    if ws == [] then ""
    else if |ws| == 1 then ws[0]
    else ws[0] + " " + Unwords(ws[1..])
  }

  /** Leading whitespace never changes the tokens. */
  lemma {:induction false} SplitSkipsLeadingSpace(s: string, k: nat)
    requires k <= |s| && AllSpace(s[..k])
    ensures Split(s[k..]) == Split(s)
    decreases k
  {
    if k > 0 {
      assert IsSpace(s[..k][0]);
      assert s[1..][..k - 1] == s[1..k];
      assert s[1..][k - 1..] == s[k..];
      SplitSkipsLeadingSpace(s[1..], k - 1);
    }
  }

  /** Trailing whitespace never changes the tokens. */
  lemma {:induction false} SplitSkipsTrailingSpace(s: string, k: nat)
    requires k <= |s| && AllSpace(s[|s| - k..])
    ensures Split(s[..|s| - k]) == Split(s)
    decreases |s|
  {
    if k == |s| {
      assert s[|s| - k..] == s;
      AllSpaceSplitsToNothing(s);
    } else if IsSpace(s[0]) {
      assert s[..|s| - k][1..] == s[1..][..|s| - 1 - k];
      assert s[1..][|s| - 1 - k..] == s[|s| - k..];
      SplitSkipsTrailingSpace(s[1..], k);
    } else {
      SplitWordThenTrailingSpace(s, k);
    }
  }

  /** The step of `SplitSkipsTrailingSpace` for a string that starts with a word. */
  lemma {:induction false} SplitWordThenTrailingSpace(s: string, k: nat)
    requires k < |s| && !IsSpace(s[0]) && AllSpace(s[|s| - k..])
    ensures Split(s[..|s| - k]) == Split(s)
    decreases |s|, 0
  {
    var t := s[..|s| - k];
    var n := WordLength(t);
    assert n == WordLength(s) by {
      WordLengthPrefix(s, |t|);
    }
    assert t[..n] == s[..n];
    var u := s[n..];
    assert t[n..] == u[..|u| - k];
    assert u[|u| - k..] == s[|s| - k..];
    SplitSkipsTrailingSpace(u, k);
  }

  /** The first word of a prefix that ends where whitespace begins is the
      first word of the whole string. */
  lemma {:induction false} WordLengthPrefix(s: string, m: nat)
    requires 0 < m <= |s|
    requires m == |s| || IsSpace(s[m])
    ensures WordLength(s[..m]) == WordLength(s)
    decreases |s|
  {
    if !IsSpace(s[0]) && m > 1 {
      assert s[..m][1..] == s[1..][..m - 1];
      WordLengthPrefix(s[1..], m - 1);
    }
  }

  lemma {:induction false} AllSpaceSplitsToNothing(s: string)
    requires AllSpace(s)
    ensures Split(s) == []
    decreases |s|
  {
    if s != [] {
      assert IsSpace(s[0]);
      AllSpaceSplitsToNothing(s[1..]);
    }
  }

  /** Splitting words joined by single spaces gives the words back. */
  lemma {:induction false} SplitUnwords(ws: seq<string>)
    requires forall i :: 0 <= i < |ws| ==> IsWord(ws[i])
    ensures Split(Unwords(ws)) == ws
    decreases |ws|
  {
    if ws == [] {
    } else if |ws| == 1 {
      SplitWordThen(ws[0], "");
      assert ws[0] + "" == ws[0];
    } else {
      var w, rest := ws[0], Unwords(ws[1..]);
      SplitUnwords(ws[1..]);
      SplitWordThen(w, " " + rest);
      assert w + " " + rest == w + (" " + rest);
      assert Split(" " + rest) == Split(rest) by {
        assert (" " + rest)[1..] == rest;
      }
    }
  }

  /** A word followed by a string that is empty or starts with whitespace
      splits into that word and the tokens of the rest. */
  lemma SplitWordThen(w: string, rest: string)
    requires IsWord(w)
    requires rest == [] || IsSpace(rest[0])
    ensures Split(w + rest) == [w] + Split(rest)
  {
    var s := w + rest;
    assert s[..|w|] == w && s[|w|..] == rest;
    WordLengthPrefix(s, |w|);
    assert WordLength(w) == |w| by {
      WordLengthOfWord(w);
    }
  }

  lemma {:induction false} WordLengthOfWord(w: string)
    requires forall i :: 0 <= i < |w| ==> !IsSpace(w[i])
    ensures WordLength(w) == |w|
    decreases |w|
  {
    if w != [] {
      WordLengthOfWord(w[1..]);
    }
  }
}
