/** The string primitives the wire format relies on: Python's notion of
    whitespace (`str.isspace`, shared by `str.split()` and `str.strip()`),
    `str.lower()` restricted to ASCII letters, whitespace-run tokenisation
    and trimming. */
module Text {

  /** The characters Python's argument-less `split()` and `strip()` treat as
      whitespace. */
  predicate IsSpace(c: char) {
    || c == ' '
    || ('\t' <= c <= '\r')
    || ('\U{1c}' <= c <= '\U{1f}')
    || c == '\U{85}'
    || c == '\U{a0}'
    || c == '\U{1680}'
    || ('\U{2000}' <= c <= '\U{200a}')
    || c == '\U{2028}'
    || c == '\U{2029}'
    || c == '\U{202f}'
    || c == '\U{205f}'
    || c == '\U{3000}'
  }

  /** Every character of `s` is whitespace (the empty string included). */
  predicate AllSpace(s: string) {
    forall i :: 0 <= i < |s| ==> IsSpace(s[i])
  }

  /** A token as `split()` produces it: non-empty, no whitespace inside. */
  predicate IsWord(t: string) {
    |t| > 0 && forall i :: 0 <= i < |t| ==> !IsSpace(t[i])
  }

  predicate IsUpper(c: char) {
    'A' <= c <= 'Z'
  }

  /** `str.lower()` on one character, for the ASCII letters. */
  function LowerChar(c: char): (r: char)
    ensures !IsUpper(r)
    ensures IsSpace(r) <==> IsSpace(c)
    ensures !IsUpper(c) ==> r == c
  {
    if IsUpper(c) then (c as int + 32) as char else c
  }

  /** `str.lower()`: the same string with every ASCII capital replaced. */
  function Lower(s: string): (r: string)
    ensures |r| == |s|
    ensures forall i :: 0 <= i < |s| ==> r[i] == LowerChar(s[i])
  {
    seq(|s|, i requires 0 <= i < |s| => LowerChar(s[i]))
  }

  /** `s` has no capital letter, so lower-casing leaves it alone. */
  predicate IsLower(s: string) {
    forall i :: 0 <= i < |s| ==> !IsUpper(s[i])
  }

  /** No whitespace and no capital letter anywhere in `s`: such a string is
      left alone by `lower()` and, when not empty, is a single `split()`
      token. */
  predicate Plain(s: string) {
    forall i :: 0 <= i < |s| ==> !IsSpace(s[i]) && !IsUpper(s[i])
  }

  lemma PlainConcat(a: string, b: string)
    requires Plain(a) && Plain(b)
    ensures Plain(a + b)
  {
  }

  /** A non-empty plain string is a lower-case word. */
  lemma PlainWord(s: string)
    requires Plain(s) && |s| > 0
    ensures IsWord(s) && IsLower(s)
  {
  }

  /** Lower-casing every token of a token list. */
  function LowerAll(ts: seq<string>): (r: seq<string>)
    ensures |r| == |ts|
    ensures forall i :: 0 <= i < |ts| ==> r[i] == Lower(ts[i])
  {
    seq(|ts|, i requires 0 <= i < |ts| => Lower(ts[i]))
  }

  /** Length of the leading run of non-whitespace characters. */
  function WordLength(s: string): (n: nat)
    ensures n <= |s|
    ensures forall i :: 0 <= i < n ==> !IsSpace(s[i])
    ensures n < |s| ==> IsSpace(s[n])
  {
    if |s| > 0 && !IsSpace(s[0]) then 1 + WordLength(s[1..]) else 0
  }

  /** Python's argument-less `str.split()`: the maximal runs of
      non-whitespace characters, in order. */
  function Split(s: string): (tokens: seq<string>)
    ensures forall t :: t in tokens ==> IsWord(t)
    decreases |s|
  {
    if |s| == 0 then []
    else if IsSpace(s[0]) then Split(s[1..])
    else
      var n := WordLength(s);
      [s[..n]] + Split(s[n..])
  }

  /** `str.lstrip()`: drops the leading whitespace. */
  function TrimStart(s: string): (r: string)
    ensures |r| <= |s| && r == s[|s| - |r|..]
    ensures AllSpace(s[..|s| - |r|])
    ensures |r| > 0 ==> !IsSpace(r[0])
  {
    if |s| > 0 && IsSpace(s[0]) then TrimStart(s[1..]) else s
  }

  /** Leading whitespace produces no token. */
  lemma {:induction false} SplitTrimStart(s: string)
    ensures Split(TrimStart(s)) == Split(s)
    decreases |s|
  {
    if |s| > 0 && IsSpace(s[0]) {
      SplitTrimStart(s[1..]);
    }
  }

  /** `str.rstrip()`: drops the trailing whitespace. */
  function TrimEnd(s: string): (r: string)
    ensures |r| <= |s| && r == s[..|r|]
    ensures AllSpace(s[|r|..])
    ensures |r| > 0 ==> !IsSpace(r[|r| - 1])
  {
    if |s| > 0 && IsSpace(s[|s| - 1]) then TrimEnd(s[..|s| - 1]) else s
  }

  /** `str.strip()`. */
  function Strip(s: string): string {
    TrimEnd(TrimStart(s))
  }

  /** The stripped line is empty exactly when every character is whitespace,
      which is exactly when `split()` finds no token. */
  lemma StripEmptyIffNoTokens(s: string)
    ensures |Strip(s)| == 0 <==> AllSpace(s)
    ensures AllSpace(s) <==> Split(s) == []
  {
    var t := TrimStart(s);
    var k := |s| - |t|;
    if |Strip(s)| == 0 {
      assert AllSpace(t) by { assert t[0..] == t; }
      assert s[..k] == s;
    }
    assert |t| > 0 ==> t[0] == s[k];
    AllSpaceIffNoTokens(s);
  }

  lemma {:induction false} AllSpaceIffNoTokens(s: string)
    ensures AllSpace(s) <==> Split(s) == []
    decreases |s|
  {
    if |s| > 0 {
      if IsSpace(s[0]) {
        AllSpaceIffNoTokens(s[1..]);
        if AllSpace(s[1..]) {
          forall i | 0 <= i < |s|
            ensures IsSpace(s[i])
          {
            if i > 0 {
              assert s[1..][i - 1] == s[i];
            }
          }
        } else {
          var i :| 0 <= i < |s[1..]| && !IsSpace(s[1..][i]);
          assert s[i + 1] == s[1..][i];
        }
      }
    }
  }

  /** A word followed by one whitespace character splits off as one token. */
  lemma SplitWordThenSpace(w: string, c: char, rest: string)
    requires IsWord(w) && IsSpace(c)
    ensures Split(w + [c] + rest) == [w] + Split(rest)
  {
    var s := w + [c] + rest;
    var n := WordLength(s);
    WordLengthOfWordThenSpace(w, c, rest);
    assert s[..n] == w;
    assert s[n..] == [c] + rest;
    assert ([c] + rest)[1..] == rest;
  }

  lemma {:induction false} WordLengthOfWordThenSpace(w: string, c: char, rest: string)
    requires forall i :: 0 <= i < |w| ==> !IsSpace(w[i])
    requires IsSpace(c)
    ensures WordLength(w + [c] + rest) == |w|
    decreases |w|
  {
    if |w| > 0 {
      assert (w + [c] + rest)[1..] == w[1..] + [c] + rest;
      WordLengthOfWordThenSpace(w[1..], c, rest);
    }
  }

  /** The words of `ts`, each followed by a single space. */
  function JoinWords(ts: seq<string>): string {
    if |ts| == 0 then "" else ts[0] + " " + JoinWords(ts[1..])
  }

  /** The layout of one written record line: every token followed by a
      space, then the newline. */
  function JoinLine(ts: seq<string>): string {
    JoinWords(ts) + "\n"
  }

  /** A joined line ends with a space, then the newline. */
  lemma {:induction false} JoinLineEnds(ts: seq<string>)
    requires |ts| > 0
    ensures |JoinLine(ts)| >= 2 && JoinLine(ts)[|JoinLine(ts)| - 2..] == " \n"
  {
    var w := JoinWords(ts[..|ts| - 1]);
    JoinWordsSnoc(ts[..|ts| - 1], ts[|ts| - 1]);
    assert ts[..|ts| - 1] + [ts[|ts| - 1]] == ts;
    assert JoinLine(ts) == w + ts[|ts| - 1] + " \n";
  }

  /** A joined line starts with the first character of its first token. */
  lemma JoinWordsHead(ts: seq<string>)
    requires |ts| > 0 && |ts[0]| > 0
    ensures JoinLine(ts)[0] == ts[0][0]
  {
    assert JoinLine(ts) == ts[0] + (" " + JoinWords(ts[1..]) + "\n");
  }

  lemma {:induction false} JoinWordsSnoc(ts: seq<string>, t: string)
    ensures JoinWords(ts + [t]) == JoinWords(ts) + t + " "
  {
    if |ts| == 0 {
      assert ts + [t] == [t];
    } else {
      assert (ts + [t])[1..] == ts[1..] + [t];
      JoinWordsSnoc(ts[1..], t);
    }
  }

  /** Splitting a space-joined line gives back its tokens, whatever follows. */
  lemma {:induction false} SplitJoinWords(ts: seq<string>, tail: string)
    requires forall i :: 0 <= i < |ts| ==> IsWord(ts[i])
    ensures Split(JoinWords(ts) + tail) == ts + Split(tail)
  {
    if |ts| > 0 {
      var w, more := ts[0], ts[1..];
      var rest := JoinWords(more) + tail;
      assert JoinWords(ts) + tail == w + [' '] + rest;
      SplitWordThenSpace(w, ' ', rest);
      SplitJoinWords(more, tail);
      ConsAppend(w, more, Split(tail));
      assert [w] + more == ts;
    } else {
      assert JoinWords(ts) + tail == tail;
    }
  }

  lemma ConsAppend(w: string, ts: seq<string>, us: seq<string>)
    ensures [w] + (ts + us) == ([w] + ts) + us
  {
  }

  /** The token-level round trip of the line layout: `split()` of a joined
      line is exactly the token list that was joined. */
  lemma SplitJoinLine(ts: seq<string>)
    requires forall i :: 0 <= i < |ts| ==> IsWord(ts[i])
    ensures Split(JoinLine(ts)) == ts
  {
    SplitJoinWords(ts, "\n");
    assert Split("\n") == Split("\n"[1..]);
  }

  /** Lower-casing a line and then splitting it gives the lower-cased tokens
      of the original line: lower-casing never creates or removes whitespace. */
  lemma {:induction false} SplitLower(s: string)
    ensures Split(Lower(s)) == LowerAll(Split(s))
    decreases |s|
  {
    var l := Lower(s);
    if |s| > 0 {
      if IsSpace(s[0]) {
        LowerSuffix(s, 1);
        SplitLower(s[1..]);
      } else {
        var n := WordLength(s);
        WordLengthLower(s);
        assert Split(l) == [l[..n]] + Split(l[n..]);
        LowerPrefix(s, n);
        LowerSuffix(s, n);
        SplitLower(s[n..]);
        LowerAllCons(s[..n], Split(s[n..]));
      }
    }
  }

  lemma LowerPrefix(s: string, n: nat)
    requires n <= |s|
    ensures Lower(s)[..n] == Lower(s[..n])
  {
  }

  lemma LowerSuffix(s: string, n: nat)
    requires n <= |s|
    ensures Lower(s)[n..] == Lower(s[n..])
  {
  }

  lemma LowerAllCons(t: string, ts: seq<string>)
    ensures LowerAll([t] + ts) == [Lower(t)] + LowerAll(ts)
  {
  }

  lemma {:induction false} WordLengthLower(s: string)
    ensures WordLength(Lower(s)) == WordLength(s)
  {
    if |s| > 0 {
      assert Lower(s)[1..] == Lower(s[1..]);
      WordLengthLower(s[1..]);
    }
  }

  /** A string without capitals is its own lower-case form. */
  lemma LowerOfLower(s: string)
    requires IsLower(s)
    ensures Lower(s) == s
  {
  }
}
