/** String operations the assistant relies on, stated over `string` (a
    sequence of Unicode code points): Python's `str.split()` with no
    separator, `sep.join(parts)`, `str.strip()` and the substring test
    `pat in s`. */
module Text {

  /** Python's `str.isspace()` for one character: the code points that
      `str.split()` and `str.strip()` treat as whitespace. */
  predicate IsSpace(c: char) {
    var n := c as int;
    (0x09 <= n <= 0x0D) || (0x1C <= n <= 0x20) || n == 0x85 || n == 0xA0 ||
    n == 0x1680 || (0x2000 <= n <= 0x200A) || n == 0x2028 || n == 0x2029 ||
    n == 0x202F || n == 0x205F || n == 0x3000
  }

  /** A word as `str.split()` produces it: non-empty, free of whitespace. */
  predicate IsWord(w: string) {
    w != [] && forall i :: 0 <= i < |w| ==> !IsSpace(w[i])
  }

  predicate AllWords(ws: seq<string>) {
    forall i :: 0 <= i < |ws| ==> IsWord(ws[i])
  }

  /** Length of the run of non-whitespace characters that starts `s`. */
  function WordLength(s: string): (n: nat)
    ensures n <= |s|
    ensures forall i :: 0 <= i < n ==> !IsSpace(s[i])
    ensures n < |s| ==> IsSpace(s[n])
  {
    if s == [] || IsSpace(s[0]) then 0 else 1 + WordLength(s[1..])
  }

  /** `s.split()`: the maximal runs of non-whitespace characters, in order. */
  function Split(s: string): (ws: seq<string>)
    ensures AllWords(ws)
    decreases |s|
  {
    if s == [] then []
    else if IsSpace(s[0]) then Split(s[1..])
    else
      var n := WordLength(s);
      [s[..n]] + Split(s[n..])
  }

  /** `sep.join(parts)`. */
  function Join(sep: string, parts: seq<string>): (r: string)
    ensures parts == [] ==> r == []
    ensures |parts| == 1 ==> r == parts[0]
  {
    if parts == [] then ""
    else if |parts| == 1 then parts[0]
    else parts[0] + sep + Join(sep, parts[1..])
  }

  /** A word ends at the first whitespace character, so text appended after
      whitespace does not change the first word's length. */
  lemma {:induction false} WordLengthAppend(a: string, b: string)
    requires b != [] && IsSpace(b[0])
    ensures WordLength(a + b) == WordLength(a)
  {
    if a == [] {
    } else if IsSpace(a[0]) {
    } else {
      assert (a + b)[1..] == a[1..] + b;
      WordLengthAppend(a[1..], b);
    }
  }

  /** Splitting distributes over a concatenation whose second part starts
      with whitespace: no word spans the seam. */
  lemma {:induction false} SplitAppend(a: string, b: string)
    requires b != [] && IsSpace(b[0])
    ensures Split(a + b) == Split(a) + Split(b)
    decreases |a|
  {
    if a == [] {
      assert a + b == b;
    } else if IsSpace(a[0]) {
      assert (a + b)[1..] == a[1..] + b;
      SplitAppend(a[1..], b);
    } else {
      WordLengthAppend(a, b);
      var n := WordLength(a);
      assert (a + b)[..n] == a[..n];
      assert (a + b)[n..] == a[n..] + b;
      SplitAppend(a[n..], b);
    }
  }

  /** Splitting a single word gives back that word. */
  lemma SplitWord(w: string)
    requires IsWord(w)
    ensures Split(w) == [w]
  {
    WordLengthOfWord(w);
    assert w[..|w|] == w;
    assert w[|w|..] == [];
  }

  lemma {:induction false} WordLengthOfWord(w: string)
    requires forall i :: 0 <= i < |w| ==> !IsSpace(w[i])
    ensures WordLength(w) == |w|
  {
    if w != [] {
      WordLengthOfWord(w[1..]);
    }
  }

  /** Leading whitespace does not change the words. */
  lemma SplitLeadingSpace(c: char, s: string)
    requires IsSpace(c)
    ensures Split([c] + s) == Split(s)
  {
    assert ([c] + s)[1..] == s;
  }

  /** Joining words with single spaces and splitting again is the identity. */
  lemma {:induction false} SplitJoin(ws: seq<string>)
    requires AllWords(ws)
    ensures Split(Join(" ", ws)) == ws
  {
    if ws == [] {
    } else if |ws| == 1 {
      SplitWord(ws[0]);
    } else {
      var rest := Join(" ", ws[1..]);
      var tail := " " + rest;
      assert Join(" ", ws) == ws[0] + tail;
      assert Split(tail) == ws[1..] by {
        assert [' '] + rest == tail;
        SplitLeadingSpace(' ', rest);
        SplitJoin(ws[1..]);
      }
      assert Split(ws[0]) == [ws[0]] by {
        SplitWord(ws[0]);
      }
      SplitAppend(ws[0], tail);
      assert ws == [ws[0]] + ws[1..];
    }
  }

  /** Length of the run of whitespace that starts `s`. */
  function LeadingSpaces(s: string): (n: nat)
    ensures n <= |s|
    ensures forall i :: 0 <= i < n ==> IsSpace(s[i])
    ensures n < |s| ==> !IsSpace(s[n])
  {
    if s != [] && IsSpace(s[0]) then 1 + LeadingSpaces(s[1..]) else 0
  }

  /** Length of the run of whitespace that ends `s`. */
  function TrailingSpaces(s: string): (n: nat)
    ensures n <= |s|
    ensures forall i :: |s| - n <= i < |s| ==> IsSpace(s[i])
    ensures n < |s| ==> !IsSpace(s[|s| - n - 1])
  {
    if s != [] && IsSpace(s[|s| - 1]) then 1 + TrailingSpaces(s[..|s| - 1]) else 0
  }

  /** `s.strip()`: `s` without its leading and trailing whitespace. */
  function Strip(s: string): (r: string)
    ensures r == [] || (!IsSpace(r[0]) && !IsSpace(r[|r| - 1]))
  {
    var t := s[LeadingSpaces(s)..];
    t[..|t| - TrailingSpaces(t)]
  }

  /** A text made only of whitespace has no words. */
  lemma {:induction false} SplitAllSpace(s: string)
    requires forall i :: 0 <= i < |s| ==> IsSpace(s[i])
    ensures Split(s) == []
  {
    if s != [] {
      SplitAllSpace(s[1..]);
    }
  }

  /** Dropping a whitespace prefix does not change the words. */
  lemma {:induction false} SplitDropSpaces(s: string, n: nat)
    requires n <= |s| && forall i :: 0 <= i < n ==> IsSpace(s[i])
    ensures Split(s[n..]) == Split(s)
  {
    if n > 0 {
      SplitDropSpaces(s[1..], n - 1);
      assert s[1..][n - 1..] == s[n..];
    }
  }

  /** Dropping a whitespace suffix does not change the words. */
  lemma SplitTakeBeforeSpaces(s: string, m: nat)
    requires m <= |s| && forall i :: m <= i < |s| ==> IsSpace(s[i])
    ensures Split(s[..m]) == Split(s)
  {
    if m < |s| {
      SplitAppend(s[..m], s[m..]);
      SplitAllSpace(s[m..]);
      assert s[..m] + s[m..] == s;
    } else {
      assert s[..m] == s;
    }
  }

  /** Stripping keeps exactly the words of the text. */
  lemma StripKeepsWords(s: string)
    ensures Split(Strip(s)) == Split(s)
  {
    var t := s[LeadingSpaces(s)..];
    SplitDropSpaces(s, LeadingSpaces(s));
    SplitTakeBeforeSpaces(t, |t| - TrailingSpaces(t));
  }

  /** `pat` occurs in `s` starting at index `i`. */
  predicate OccursAt(s: string, pat: string, i: nat) {
    i + |pat| <= |s| && s[i..i + |pat|] == pat
  }

  /** Python's `pat in s` for strings: compare at each position in turn. */
  function Contains(s: string, pat: string): bool
    decreases |s|
  {
    if |pat| <= |s| && s[..|pat|] == pat then true
    else if s == [] then false
    else Contains(s[1..], pat)
  }

  /** `Contains` holds exactly when `pat` occurs somewhere in `s`. */
  lemma {:induction false} ContainsOccurs(s: string, pat: string)
    ensures Contains(s, pat) <==> exists i: nat :: OccursAt(s, pat, i)
    decreases |s|
  {
    if |pat| <= |s| && s[..|pat|] == pat {
      assert OccursAt(s, pat, 0);
    } else if s == [] {
      assert forall i: nat :: !OccursAt(s, pat, i);
    } else {
      ContainsOccurs(s[1..], pat);
      ContainsShift(s, pat);
    }
  }

  /** An occurrence in `s` past index 0 is an occurrence in `s[1..]`. */
  lemma ContainsShift(s: string, pat: string)
    requires s != [] && !(|pat| <= |s| && s[..|pat|] == pat)
    ensures (exists i: nat :: OccursAt(s, pat, i)) <==> (exists i: nat :: OccursAt(s[1..], pat, i))
  {
    forall i: nat | OccursAt(s, pat, i)
      ensures OccursAt(s[1..], pat, i - 1)
    {
      assert i != 0;
      assert s[1..][i - 1..i - 1 + |pat|] == s[i..i + |pat|];
    }
    forall i: nat | OccursAt(s[1..], pat, i)
      ensures OccursAt(s, pat, i + 1)
    {
      assert s[1..][i..i + |pat|] == s[i + 1..i + 1 + |pat|];
    }
  }
}
