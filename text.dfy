/** The optional value of Python's `None`-or-value returns. */
module Options {
  datatype Option<+T> = None | Some(value: T)
}

/**
 * String helpers with Python's semantics: the whitespace of `str.isspace`,
 * `str.strip`, `str.split()`, `str.join`, `str.replace(p, "")`, substring
 * search, the line breaks of `str.splitlines`, `str(int)` and the
 * code-point order that `sorted` uses on strings.
 */
module Text {

  /** The characters Python's `str.isspace()` (and so `strip()` and `split()`) treat as whitespace. */
  predicate IsSpace(c: char) {
    || ('\t' <= c <= '\r')
    || ('\U{1C}' <= c <= '\U{1F}')
    || c == ' ' || c == '\U{85}' || c == '\U{A0}' || c == '\U{1680}'
    || ('\U{2000}' <= c <= '\U{200A}')
    || c == '\U{2028}' || c == '\U{2029}' || c == '\U{202F}' || c == '\U{205F}' || c == '\U{3000}'
  }

  /** The characters at which Python's `str.splitlines()` ends a line. */
  predicate IsLineBreak(c: char) {
    || c == '\n' || c == '\r' || c == '\U{0B}' || c == '\U{0C}'
    || ('\U{1C}' <= c <= '\U{1E}')
    || c == '\U{85}' || c == '\U{2028}' || c == '\U{2029}'
  }

  lemma LineBreakIsSpace(c: char)
    ensures IsLineBreak(c) ==> IsSpace(c)
  {}

  predicate IsDigit(c: char) {
    '0' <= c <= '9'
  }

  predicate AllDigits(s: string) {
    forall i :: 0 <= i < |s| ==> IsDigit(s[i])
  }

  predicate NoSpace(s: string) {
    forall i :: 0 <= i < |s| ==> !IsSpace(s[i])
  }

  /** `s` neither starts nor ends with whitespace, as `strip()` leaves it. */
  predicate Trimmed(s: string) {
    s == [] || (!IsSpace(s[0]) && !IsSpace(s[|s| - 1]))
  }

  predicate Lacks(s: string, c: char) {
    forall i :: 0 <= i < |s| ==> s[i] != c
  }

  /** `k` occurs in `s` starting at index `i`. */
  predicate OccursAt(s: string, k: string, i: int) {
    0 <= i && i + |k| <= |s| && s[i..i + |k|] == k
  }

  /** Substring search, as `k in s` or `re.search(re.escape(k), s)` decide it. */
  function Contains(s: string, k: string): (b: bool)
    ensures b <==> exists i :: OccursAt(s, k, i)
    decreases |s|
  {
    if |k| > |s| then
      assert forall i :: !OccursAt(s, k, i);
      false
    else if s[..|k|] == k then
      assert OccursAt(s, k, 0);
      true
    else
      var b := Contains(s[1..], k);
      assert forall i :: OccursAt(s[1..], k, i) <==> OccursAt(s, k, i + 1);
      assert forall i :: OccursAt(s, k, i) ==> i == 0 || OccursAt(s[1..], k, i - 1);
      b
  }

  lemma MiddleOf(a: string, k: string, b: string)
    ensures (a + k + b)[|a|..|a| + |k|] == k
  {}

  lemma ContainsInMiddle(a: string, k: string, b: string)
    ensures Contains(a + k + b, k)
  {
    assert (a + k + b)[|a|..|a| + |k|] == k;
    assert OccursAt(a + k + b, k, |a|);
  }

  /** A common prefix cancels. */
  lemma CancelLeft(a: string, x: string, y: string)
    requires a + x == a + y
    ensures x == y
  {
    assert x == (a + x)[|a|..];
    assert y == (a + y)[|a|..];
  }

  /** A common suffix cancels. */
  lemma CancelRight(x: string, y: string, b: string)
    requires x + b == y + b
    ensures x == y
  {
    assert x == (x + b)[..|x|];
    assert y == (y + b)[..|y|];
  }

  /** An occurrence in `s` is an occurrence in `s + t`. */
  lemma ContainsAppend(s: string, t: string, k: string)
    requires Contains(s, k)
    ensures Contains(s + t, k)
  {
    var i :| OccursAt(s, k, i);
    assert (s + t)[i..i + |k|] == s[i..i + |k|];
    assert OccursAt(s + t, k, i);
  }

  /** An occurrence in `t` is an occurrence in `s + t`. */
  lemma ContainsPrepend(s: string, t: string, k: string)
    requires Contains(t, k)
    ensures Contains(s + t, k)
  {
    var i :| OccursAt(t, k, i);
    assert (s + t)[|s| + i..|s| + i + |k|] == t[i..i + |k|];
    assert OccursAt(s + t, k, |s| + i);
  }

  // ---------------------------------------------------------------------
  // strip

  /** `lstrip()`: drops the leading whitespace. */
  function TrimStart(s: string): (r: string)
    ensures |r| <= |s| && r == s[|s| - |r|..]
    ensures r == [] || !IsSpace(r[0])
    ensures forall i :: 0 <= i < |s| - |r| ==> IsSpace(s[i])
  {
    if s != [] && IsSpace(s[0]) then TrimStart(s[1..]) else s
  }

  /** `rstrip()`: drops the trailing whitespace. */
  function TrimEnd(s: string): (r: string)
    ensures |r| <= |s| && r == s[..|r|]
    ensures r == [] || !IsSpace(r[|r| - 1])
    ensures forall i :: |r| <= i < |s| ==> IsSpace(s[i])
  {
    if s != [] && IsSpace(s[|s| - 1]) then TrimEnd(s[..|s| - 1]) else s
  }

  /** `r` is `s` with `i` whitespace characters dropped in front and only whitespace dropped behind. */
  ghost predicate StrippedAt(s: string, r: string, i: int) {
    && 0 <= i <= |s| - |r| && r == s[i..i + |r|]
    && (forall k :: 0 <= k < i ==> IsSpace(s[k]))
    && (forall k :: i + |r| <= k < |s| ==> IsSpace(s[k]))
  }

  /** `strip()`: the slice of `s` left once the whitespace at both ends is dropped. */
  function Strip(s: string): (r: string)
    ensures Trimmed(r)
  {
    var t := TrimStart(s);
    var r := TrimEnd(t);
    assert r == [] || r[0] == t[0];
    r
  }

  /** `strip()` removes whitespace only, and only at the two ends. */
  lemma StripSpec(s: string)
    ensures exists i :: StrippedAt(s, Strip(s), i)
  {
    var t := TrimStart(s);
    var r := TrimEnd(t);
    var i := |s| - |t|;
    assert r == s[i..i + |r|] by {
      assert t == s[i..];
      assert r == t[..|r|];
    }
    assert forall k :: i + |r| <= k < |s| ==> IsSpace(s[k]) by {
      forall k | i + |r| <= k < |s| ensures IsSpace(s[k]) {
        assert s[k] == t[k - i];
      }
    }
    assert StrippedAt(s, r, i);
    assert Strip(s) == r;
  }

  lemma StripTrimmed(s: string)
    requires Trimmed(s)
    ensures Strip(s) == s
  {}

  // ---------------------------------------------------------------------
  // split() and join()

  /** Length of the leading run of non-whitespace characters. */
  function WordEnd(t: string): (n: nat)
    ensures n <= |t|
    ensures forall i :: 0 <= i < n ==> !IsSpace(t[i])
    ensures n == |t| || IsSpace(t[n])
  {
    if t == [] || IsSpace(t[0]) then 0 else 1 + WordEnd(t[1..])
  }

  /** Every entry of `ws` is a non-empty run without whitespace, as `split()` yields them. */
  predicate AllWords(ws: seq<string>) {
    forall i :: 0 <= i < |ws| ==> ws[i] != [] && NoSpace(ws[i])
  }

  /** No entry of `ws` contains `c`. */
  predicate AllLack(ws: seq<string>, c: char) {
    forall i :: 0 <= i < |ws| ==> Lacks(ws[i], c)
  }

  /** `s.split()` with no argument: the maximal runs of non-whitespace characters. */
  function Words(s: string): (ws: seq<string>)
    ensures AllWords(ws)
    decreases |s|
  {
    var t := TrimStart(s);
    if t == [] then [] else
      var n := WordEnd(t);
      var rest := Words(t[n..]);
      AllWordsCons(t[..n], rest);
      [t[..n]] + rest
  }

  lemma AllWordsCons(w: string, rest: seq<string>)
    requires w != [] && NoSpace(w) && AllWords(rest)
    ensures AllWords([w] + rest)
  {
    var ws := [w] + rest;
    forall i | 0 < i < |ws| ensures ws[i] == rest[i - 1] {
    }
  }

  /** `sep.join(ws)`. */
  function Join(sep: string, ws: seq<string>): (r: string)
  {
    if ws == [] then []
    else if |ws| == 1 then ws[0]
    else ws[0] + sep + Join(sep, ws[1..])
  }

  lemma {:induction false} JoinContains(sep: string, ws: seq<string>, i: nat)
    requires i < |ws|
    ensures Contains(Join(sep, ws), ws[i])
  {
    if |ws| == 1 {
      ContainsInMiddle([], ws[0], []);
    } else if i == 0 {
      ContainsInMiddle([], ws[0], sep + Join(sep, ws[1..]));
      assert ws[0] + sep + Join(sep, ws[1..]) == [] + ws[0] + (sep + Join(sep, ws[1..]));
    } else {
      JoinContains(sep, ws[1..], i - 1);
      var j :| OccursAt(Join(sep, ws[1..]), ws[i], j);
      var pre := ws[0] + sep;
      assert Join(sep, ws) == pre + Join(sep, ws[1..]);
      assert (pre + Join(sep, ws[1..]))[|pre| + j..|pre| + j + |ws[i]|] == Join(sep, ws[1..])[j..j + |ws[i]|];
      assert OccursAt(Join(sep, ws), ws[i], |pre| + j);
    }
  }

  /** Joining non-empty, whitespace-free words with single spaces gives a trimmed string. */
  lemma {:induction false} JoinWordsTrimmed(ws: seq<string>)
    requires AllWords(ws)
    ensures Trimmed(Join(" ", ws))
    ensures Join(" ", ws) != [] <==> ws != []
  {
    if |ws| > 1 {
      var tail := ws[1..];
      assert forall i :: 0 <= i < |tail| ==> tail[i] == ws[i + 1];
      JoinWordsTrimmed(tail);
      var r := Join(" ", tail);
      var j := ws[0] + " " + r;
      assert Join(" ", ws) == j;
      assert j[0] == ws[0][0];
      assert j[|j| - 1] == r[|r| - 1];
    }
  }

  lemma {:induction false} JoinLacks(sep: string, ws: seq<string>, c: char)
    requires Lacks(sep, c)
    requires AllLack(ws, c)
    ensures Lacks(Join(sep, ws), c)
  {
    if |ws| > 1 {
      var tail := ws[1..];
      assert forall i :: 0 <= i < |tail| ==> tail[i] == ws[i + 1];
      JoinLacks(sep, tail, c);
      var r := Join(sep, tail);
      assert Join(sep, ws) == ws[0] + sep + r;
    }
  }

  lemma {:induction false} WordsLack(s: string, c: char)
    requires Lacks(s, c)
    ensures AllLack(Words(s), c)
    decreases |s|
  {
    var t := TrimStart(s);
    if t != [] {
      var n := WordEnd(t);
      WordsLack(t[n..], c);
      var ws, rest := Words(s), Words(t[n..]);
      assert ws == [t[..n]] + rest;
      forall i | 0 <= i < |ws| ensures Lacks(ws[i], c) {
        if i > 0 {
          assert ws[i] == rest[i - 1];
        }
      }
    }
  }

  lemma WordEndOfWord(w: string, rest: string)
    requires NoSpace(w)
    requires rest == [] || IsSpace(rest[0])
    ensures WordEnd(w + rest) == |w|
    decreases |w|
  {
    if w != [] {
      assert (w + rest)[1..] == w[1..] + rest;
      WordEndOfWord(w[1..], rest);
    }
  }

  lemma WordsOfWordThen(w: string, rest: string)
    requires w != [] && NoSpace(w)
    requires rest == [] || IsSpace(rest[0])
    ensures Words(w + rest) == [w] + Words(rest)
  {
    var t := w + rest;
    assert TrimStart(t) == t;
    WordEndOfWord(w, rest);
    assert t[..|w|] == w;
    assert t[|w|..] == rest;
  }

  lemma WordsAfterSpace(j: string)
    ensures Words(" " + j) == Words(j)
  {
    assert (" " + j)[1..] == j;
    assert TrimStart(" " + j) == TrimStart(j);
  }

  /** `split()` undoes `" ".join(...)` on non-empty whitespace-free words. */
  lemma {:induction false} WordsOfJoin(ws: seq<string>)
    requires AllWords(ws)
    ensures Words(Join(" ", ws)) == ws
  {
    if |ws| == 1 {
      WordsOfWord(ws[0]);
      assert ws == [ws[0]];
    } else if |ws| > 1 {
      var tail := ws[1..];
      assert forall i :: 0 <= i < |tail| ==> tail[i] == ws[i + 1];
      WordsOfJoin(tail);
      WordsOfJoinStep(ws);
    }
  }

  lemma WordsOfWord(w: string)
    requires w != [] && NoSpace(w)
    ensures Words(Join(" ", [w])) == [w]
  {
    WordsOfWordThen(w, []);
    assert w + [] == w;
  }

  lemma ConcatAssoc<T>(a: seq<T>, b: seq<T>, c: seq<T>)
    ensures a + b + c == a + (b + c)
  {
  }

  /** The inductive step of `WordsOfJoin`: one more word in front. */
  lemma WordsOfJoinStep(ws: seq<string>)
    requires |ws| > 1 && ws[0] != [] && NoSpace(ws[0])
    requires Words(Join(" ", ws[1..])) == ws[1..]
    ensures Words(Join(" ", ws)) == ws
  {
    var j := Join(" ", ws[1..]);
    assert Join(" ", ws) == ws[0] + " " + j;
    ConcatAssoc(ws[0], " ", j);
    WordsOfWordThen(ws[0], " " + j);
    WordsAfterSpace(j);
    assert ws == [ws[0]] + ws[1..];
  }


  // ---------------------------------------------------------------------
  // str.replace(p, "")

  /** `s.replace(p, "")`: removes the leftmost non-overlapping occurrences of `p`, left to right. */
  function RemoveAll(s: string, p: string): (r: string)
    requires p != []
    ensures |r| <= |s|
    decreases |s|
  {
    if |s| < |p| then s
    else if s[..|p|] == p then RemoveAll(s[|p|..], p)
    else [s[0]] + RemoveAll(s[1..], p)
  }

  lemma {:induction false} RemoveAllAbsent(s: string, p: string)
    requires p != []
    requires !Contains(s, p)
    ensures RemoveAll(s, p) == s
    decreases |s|
  {
    if |s| >= |p| {
      assert !OccursAt(s, p, 0);
      assert forall i :: OccursAt(s[1..], p, i) ==> OccursAt(s, p, i + 1);
      RemoveAllAbsent(s[1..], p);
    }
  }

  /** A string without the character `c` does not contain the one-character string `[c]`. */
  lemma LacksNotContains(s: string, c: char)
    requires Lacks(s, c)
    ensures !Contains(s, [c])
  {
    forall i | 0 <= i < |s| ensures !OccursAt(s, [c], i) {
      assert s[i..i + 1][0] == s[i];
    }
  }

  lemma {:induction false} RemoveAllLacks(s: string, c: char)
    ensures Lacks(RemoveAll(s, [c]), c)
    decreases |s|
  {
    if |s| >= 1 {
      RemoveAllLacks(s[1..], c);
    }
  }

  // ---------------------------------------------------------------------
  // str(int)

  function DigitChar(d: nat): (c: char)
    requires d < 10
    ensures IsDigit(c)
  {
    (('0' as int) + d) as char
  }

  function DigitValue(c: char): (d: nat)
    requires IsDigit(c)
    ensures d < 10 && DigitChar(d) == c
  {
    (c as int) - ('0' as int)
  }

  /** `str(n)` for a natural number: decimal, no leading zeros. */
  function NatToString(n: nat): (r: string)
    ensures r != [] && AllDigits(r)
  {
    if n < 10 then [DigitChar(n)] else NatToString(n / 10) + [DigitChar(n % 10)]
  }

  /** `int(s)` on a string of decimal digits. */
  function ParseNat(s: string): nat
    requires AllDigits(s)
  {
    if s == [] then 0 else 10 * ParseNat(s[..|s| - 1]) + DigitValue(s[|s| - 1])
  }

  lemma {:induction false} ParseNatToString(n: nat)
    ensures ParseNat(NatToString(n)) == n
  {
    if n >= 10 {
      ParseNatToString(n / 10);
      var s := NatToString(n);
      assert s[..|s| - 1] == NatToString(n / 10);
    }
  }

  lemma NatToStringInjective(m: nat, n: nat)
    requires NatToString(m) == NatToString(n)
    ensures m == n
  {
    ParseNatToString(m);
    ParseNatToString(n);
  }

  /** `str(i)` for any integer. */
  function IntToString(i: int): (r: string)
    ensures r != []
    ensures i >= 0 <==> AllDigits(r)
  {
    if i < 0 then
      var r := "-" + NatToString(-i);
      assert !IsDigit(r[0]);
      r
    else NatToString(i)
  }

  // ---------------------------------------------------------------------
  // The order `sorted` uses on strings

  /** Python's `a <= b` on strings: code-point lexicographic order, a prefix first. */
  predicate LexLe(a: string, b: string) {
    a == [] || (b != [] && (a[0] < b[0] || (a[0] == b[0] && LexLe(a[1..], b[1..]))))
  }

  lemma {:induction false} LexLeTotal(a: string, b: string)
    ensures LexLe(a, b) || LexLe(b, a)
  {
    if a != [] && b != [] && a[0] == b[0] {
      LexLeTotal(a[1..], b[1..]);
    }
  }

  predicate Sorted(s: seq<string>) {
    forall i :: 0 < i < |s| ==> LexLe(s[i - 1], s[i])
  }

  function Insert(x: string, s: seq<string>): (r: seq<string>)
    requires Sorted(s)
    ensures Sorted(r)
    ensures multiset(r) == multiset(s) + multiset{x}
    ensures r != [] && (r[0] == x || (s != [] && r[0] == s[0]))
  {
    if s == [] || LexLe(x, s[0]) then [x] + s
    else
      LexLeTotal(x, s[0]);
      var t := Insert(x, s[1..]);
      assert s == [s[0]] + s[1..];
      [s[0]] + t
  }

  /** `sorted(s)`: the strings of `s` in ascending order. */
  function Sort(s: seq<string>): (r: seq<string>)
    ensures Sorted(r)
    ensures multiset(r) == multiset(s)
  {
    if s == [] then []
    else
      assert s == [s[0]] + s[1..];
      Insert(s[0], Sort(s[1..]))
  }
}
