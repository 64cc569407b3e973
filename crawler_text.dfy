/**
 * The pure string logic of OshinagakiFinder.py: tweet ids from status links,
 * the author-name sanitiser and image file paths of `download_image`, the
 * image-URL normaliser, keyword generation, the session-token pool filter of
 * `get_storage_states`, the search URL, the author id of `run`, and the
 * text clean-up `crawl_author` applies to names and tweet texts.
 */
module CrawlerText {
  import opened Options
  import opened Text

  // ---------------------------------------------------------------------
  // extract_tweet_id: re.search(r"/status/(\d+)", href)

  predicate MarkerAt(h: string, i: nat)
    requires i + 8 <= |h|
  {
    h[i..i + 8] == "/status/"
  }

  /** A match of `/status/\d` starts at index `i` of `h`. */
  predicate StatusAt(h: string, i: int) {
    0 <= i && i + 9 <= |h| && MarkerAt(h, i) && IsDigit(h[i + 8])
  }

  /** `j` is the leftmost match position at or after `i`. */
  ghost predicate FirstStatusAt(h: string, i: int, j: int) {
    i <= j && StatusAt(h, j) && forall k :: i <= k < j ==> !StatusAt(h, k)
  }

  /** The maximal run of digits of `h` starting at index `i` (the greedy `\d+`). */
  function DigitRun(h: string, i: nat): (r: string)
    requires i <= |h|
    ensures AllDigits(r) && i + |r| <= |h| && r == h[i..i + |r|]
    ensures i + |r| == |h| || !IsDigit(h[i + |r|])
    decreases |h| - i
  {
    if i < |h| && IsDigit(h[i]) then [h[i]] + DigitRun(h, i + 1) else []
  }

  /** The digits captured by the leftmost match at or after index `i`, or "" when there is none. */
  function ExtractFrom(h: string, i: nat): (r: string)
    requires i <= |h|
    ensures AllDigits(r)
    decreases |h| - i
  {
    if i + 9 > |h| then []
    else if StatusAt(h, i) then DigitRun(h, i + 8)
    else ExtractFrom(h, i + 1)
  }

  /** `ExtractFrom` finds the leftmost match and captures its maximal digit run, or reports that there is none. */
  lemma {:induction false} ExtractFromSpec(h: string, i: nat)
    requires i <= |h|
    ensures ExtractFrom(h, i) == [] <==> forall j :: i <= j ==> !StatusAt(h, j)
    ensures ExtractFrom(h, i) != [] ==> exists j :: FirstStatusAt(h, i, j) && ExtractFrom(h, i) == DigitRun(h, j + 8)
    decreases |h| - i
  {
    if i + 9 > |h| {
    } else if StatusAt(h, i) {
      assert FirstStatusAt(h, i, i);
      assert ExtractFrom(h, i) == DigitRun(h, i + 8);
      assert |DigitRun(h, i + 8)| > 0 by { assert IsDigit(h[i + 8]); }
    } else {
      ExtractFromSpec(h, i + 1);
      assert ExtractFrom(h, i) == ExtractFrom(h, i + 1);
      if ExtractFrom(h, i) != [] {
        var j :| FirstStatusAt(h, i + 1, j) && ExtractFrom(h, i + 1) == DigitRun(h, j + 8);
        assert FirstStatusAt(h, i, j);
      } else {
        forall j | i <= j ensures !StatusAt(h, j) {
          if j != i { assert i + 1 <= j; }
        }
      }
    }
  }

  /** Positions without a match do not change the leftmost match. */
  lemma {:induction false} ExtractFromSkips(h: string, i: nat, j: nat)
    requires i <= j <= |h|
    requires forall k :: i <= k < j ==> !StatusAt(h, k)
    ensures ExtractFrom(h, i) == ExtractFrom(h, j)
    decreases j - i
  {
    if i < j {
      ExtractFromSkips(h, i + 1, j);
    }
  }

  /** `extract_tweet_id` given the href of the article's status link. */
  function ExtractTweetId(href: string): (r: string)
    ensures AllDigits(r)
    ensures r == [] <==> forall j :: !StatusAt(href, j)
    ensures r != [] ==> exists j :: FirstStatusAt(href, 0, j) && r == DigitRun(href, j + 8)
  {
    ExtractFromSpec(href, 0);
    ExtractFrom(href, 0)
  }

  /** `extract_tweet_id(article)`: "" when the article has no status link. */
  function TweetIdOf(statusHref: Option<string>): (r: string)
    ensures statusHref.None? ==> r == []
    ensures statusHref.Some? ==> r == ExtractTweetId(statusHref.value)
  {
    match statusHref
    case None => []
    case Some(h) => ExtractTweetId(h)
  }

  lemma {:induction false} TweetIdOfStatusUrl(path: string, id: string, rest: string)
    requires id != [] && AllDigits(id)
    requires rest == [] || !IsDigit(rest[0])
    requires forall k :: !StatusAt(path, k)
    ensures ExtractTweetId(path + "/status/" + id + rest) == id
  {
    var h := path + "/status/" + id + rest;
    var p := |path|;
    assert h == path + ("/status/" + id + rest);
    assert h[p..] == "/status/" + id + rest;
    assert h[p..p + 8] == "/status/";
    assert MarkerAt(h, p);
    assert h[p + 8] == id[0];
    assert StatusAt(h, p);
    forall k | 0 <= k < p
      ensures !StatusAt(h, k)
    {
      NoStatusBeforeMarker(path, h, k);
    }
    ExtractFromSkips(h, 0, p);
    assert h[p + 8..] == id + rest;
    DigitRunOf(h, p + 8, id, rest);
  }

  /** A link of the form the status-link selector returns, `/<user>/status/<id><rest>`, gives the id. */
  lemma TweetIdOfUserLink(user: string, id: string, rest: string)
    requires Lacks(user, '/')
    requires id != [] && AllDigits(id)
    requires rest == [] || !IsDigit(rest[0])
    ensures ExtractTweetId("/" + user + "/status/" + id + rest) == id
  {
    var path := "/" + user;
    forall k | 0 <= k && k + 9 <= |path|
      ensures !StatusAt(path, k)
    {
      assert path[k + 7] == user[k + 6] != '/';
      assert path[k..k + 8][7] != '/';
    }
    TweetIdOfStatusUrl(path, id, rest);
  }

  /** A match cannot start inside `path` once `/status/<digit>` follows it, unless `path` has one itself. */
  lemma NoStatusBeforeMarker(path: string, h: string, k: nat)
    requires |path| + 9 <= |h| && h[..|path| + 8] == path + "/status/"
    requires forall k :: !StatusAt(path, k)
    requires k < |path|
    ensures !StatusAt(h, k)
  {
    var p := |path|;
    var m := h[..p + 8];
    if k + 9 <= p {
      assert forall i :: k <= i < k + 9 ==> h[i] == m[i] == path[i];
      assert h[k..k + 8] == path[k..k + 8];
      assert !StatusAt(path, k);
    } else if k + 8 == p {
      assert h[k + 8] == m[p] == '/';
    } else if k + 7 == p {
      assert h[k + 8] == m[p + 1] == 's';
    } else {
      assert h[k..k + 8][p - k] == m[p] == '/';
    }
  }

  lemma {:induction false} DigitRunOf(h: string, i: nat, id: string, rest: string)
    requires i + |id| + |rest| == |h|
    requires h[i..] == id + rest
    requires AllDigits(id)
    requires rest == [] || !IsDigit(rest[0])
    ensures DigitRun(h, i) == id
    decreases |id|
  {
    assert h[i..][..|id|] == id;
    if id == [] {
      assert rest == [] || h[i] == rest[0];
    } else {
      assert h[i] == id[0];
      assert h[i + 1..] == id[1..] + rest;
      DigitRunOf(h, i + 1, id[1..], rest);
    }
  }

  // ---------------------------------------------------------------------
  // download_image: safe_author, the file name and the image URL

  /** The characters `[a-zA-Z0-9_\-]` that survive the sanitiser. */
  predicate IsSafeChar(c: char) {
    ('a' <= c <= 'z') || ('A' <= c <= 'Z') || ('0' <= c <= '9') || c == '_' || c == '-'
  }

  predicate AllSafe(s: string) {
    forall i :: 0 <= i < |s| ==> IsSafeChar(s[i])
  }

  /** Drops the leading run of characters outside the safe class. */
  function SkipUnsafe(s: string): (r: string)
    ensures |r| <= |s| && r == s[|s| - |r|..]
    ensures r == [] || IsSafeChar(r[0])
    ensures forall i :: 0 <= i < |s| - |r| ==> !IsSafeChar(s[i])
  {
    if s != [] && !IsSafeChar(s[0]) then
      var r := SkipUnsafe(s[1..]);
      assert forall i :: 0 < i < |s| ==> s[i] == s[1..][i - 1];
      r
    else s
  }

  /** `re.sub(r"[^a-zA-Z0-9_\-]+", "_", s)`: each maximal run of other characters becomes one `_`. */
  function Sanitise(s: string): string
    decreases |s|
  {
    if s == [] then []
    else if IsSafeChar(s[0]) then [s[0]] + Sanitise(s[1..])
    else "_" + Sanitise(SkipUnsafe(s[1..]))
  }

  /** The sanitised name holds only safe characters, is no longer than the name, and is empty only for an empty name. */
  lemma {:induction false} SanitiseSpec(s: string)
    ensures AllSafe(Sanitise(s))
    ensures |Sanitise(s)| <= |s|
    ensures s != [] ==> Sanitise(s) != []
    decreases |s|
  {
    if s != [] {
      if IsSafeChar(s[0]) {
        SanitiseSpec(s[1..]);
      } else {
        SanitiseSpec(SkipUnsafe(s[1..]));
      }
    }
  }

  /** `safe_author` of `download_image`: the sanitised name, or "unknown" for an empty name. */
  function SafeAuthor(author: string): string {
    if author == [] then "unknown" else Sanitise(author)
  }

  /** The file-name stem is never empty and holds only `[a-zA-Z0-9_-]`; an empty name becomes "unknown". */
  lemma SafeAuthorSpec(author: string)
    ensures SafeAuthor(author) != [] && AllSafe(SafeAuthor(author))
    ensures author == [] ==> SafeAuthor(author) == "unknown"
  {
    SanitiseSpec(author);
  }

  lemma {:induction false} SanitiseSafe(s: string)
    requires AllSafe(s)
    ensures Sanitise(s) == s
    decreases |s|
  {
    if s != [] {
      SanitiseSafe(s[1..]);
    }
  }

  /** Sanitising a sanitised name changes nothing. */
  lemma SafeAuthorIdempotent(author: string)
    ensures SafeAuthor(SafeAuthor(author)) == SafeAuthor(author)
  {
    SafeAuthorSpec(author);
    SanitiseSafe(SafeAuthor(author));
  }

  /** The letters, digits and dashes of a string, in order: what the sanitiser never touches. */
  function Marks(s: string): (r: string)
    ensures |r| <= |s|
  {
    if s == [] then []
    else (if IsSafeChar(s[0]) && s[0] != '_' then [s[0]] else []) + Marks(s[1..])
  }

  lemma {:induction false} MarksSkipUnsafe(s: string)
    ensures Marks(SkipUnsafe(s)) == Marks(s)
    decreases |s|
  {
    if s != [] && !IsSafeChar(s[0]) {
      MarksSkipUnsafe(s[1..]);
    }
  }

  /** The sanitiser keeps every letter, digit and dash, in order, and adds none. */
  lemma {:induction false} SanitiseKeepsMarks(s: string)
    ensures Marks(Sanitise(s)) == Marks(s)
    decreases |s|
  {
    if s != [] {
      if IsSafeChar(s[0]) {
        SanitiseKeepsMarks(s[1..]);
        assert ([s[0]] + Sanitise(s[1..]))[1..] == Sanitise(s[1..]);
      } else {
        var t := SkipUnsafe(s[1..]);
        SanitiseKeepsMarks(t);
        MarksSkipUnsafe(s[1..]);
        assert ("_" + Sanitise(t))[1..] == Sanitise(t);
      }
    }
  }

  /** Skipping a whole unsafe run lands exactly on what follows it. */
  lemma {:induction false} SkipUnsafeRun(u: string, b: string)
    requires forall i :: 0 <= i < |u| ==> !IsSafeChar(u[i])
    requires b == [] || IsSafeChar(b[0])
    ensures SkipUnsafe(u + b) == b
    decreases |u|
  {
    if u == [] {
      assert u + b == b;
    } else {
      assert (u + b)[0] == u[0];
      assert (u + b)[1..] == u[1..] + b;
      SkipUnsafeRun(u[1..], b);
    }
  }

  /** A maximal non-empty run of unsafe characters becomes exactly one `_`. */
  lemma SanitiseUnsafeRun(u: string, b: string)
    requires u != [] && forall i :: 0 <= i < |u| ==> !IsSafeChar(u[i])
    requires b == [] || IsSafeChar(b[0])
    ensures Sanitise(u + b) == "_" + Sanitise(b)
  {
    assert (u + b)[0] == u[0];
    assert (u + b)[1..] == u[1..] + b;
    SkipUnsafeRun(u[1..], b);
  }

  /** Two different names can share a file-name stem. */
  lemma SafeAuthorCollides()
    ensures SafeAuthor("a b") == SafeAuthor("a!?b") == "a_b"
  {
    SanitiseSpaced();
    SanitiseMarked();
  }

  lemma SanitiseSpaced()
    ensures Sanitise("a b") == "a_b"
  {
    SanitiseSafe("b");
    SanitiseUnsafeHead(' ', "b");
    assert [' '] + "b" == " b";
    SanitiseSafeHead('a', " b");
    assert ['a'] + " b" == "a b";
    assert ['a'] + ("_" + "b") == "a_b";
  }

  lemma SanitiseMarked()
    ensures Sanitise("a!?b") == "a_b"
  {
    SanitiseSafe("b");
    SkipUnsafeHead('?', "b");
    assert ['?'] + "b" == "?b";
    SanitiseUnsafeHead('!', "?b");
    assert ['!'] + "?b" == "!?b";
    SanitiseSafeHead('a', "!?b");
    assert ['a'] + "!?b" == "a!?b";
    assert ['a'] + ("_" + "b") == "a_b";
  }

  lemma SanitiseSafeHead(c: char, s: string)
    requires IsSafeChar(c)
    ensures Sanitise([c] + s) == [c] + Sanitise(s)
  {
    assert ([c] + s)[1..] == s;
  }

  lemma SanitiseUnsafeHead(c: char, s: string)
    requires !IsSafeChar(c)
    ensures Sanitise([c] + s) == "_" + Sanitise(SkipUnsafe(s))
  {
    assert ([c] + s)[1..] == s;
  }

  lemma SkipUnsafeHead(c: char, s: string)
    requires !IsSafeChar(c)
    ensures SkipUnsafe([c] + s) == SkipUnsafe(s)
  {
    assert ([c] + s)[1..] == s;
  }

  /** `f"{safe_author}_{index}.jpg"`. */
  function ImageFileName(author: string, index: nat): string {
    SafeAuthor(author) + "_" + NatToString(index) + ".jpg"
  }

  /** `download_dir / filename`, the path `download_image` returns whether or not the download succeeded. */
  function ImagePath(dir: string, author: string, index: nat): string {
    dir + "/" + ImageFileName(author, index)
  }

  /** For one author, different image indices give different paths ... */
  lemma ImagePathInjective(dir: string, author: string, i: nat, j: nat)
    requires ImagePath(dir, author, i) == ImagePath(dir, author, j)
    ensures i == j
  {
    var stem := SafeAuthor(author) + "_";
    var ni, nj := NatToString(i), NatToString(j);
    CancelLeft(dir + "/", ImageFileName(author, i), ImageFileName(author, j));
    CancelRight(stem + ni, stem + nj, ".jpg");
    CancelLeft(stem, ni, nj);
    NatToStringInjective(i, j);
  }

  /** Drops everything up to, not including, the next newline (what `.*` matches). */
  function DropLine(s: string): (r: string)
    ensures |r| <= |s| && r == s[|s| - |r|..]
    ensures r == [] || r[0] == '\n'
    ensures Lacks(s[..|s| - |r|], '\n')
  {
    if s != [] && s[0] != '\n' then
      var r := DropLine(s[1..]);
      assert s[..|s| - |r|] == [s[0]] + s[1..][..|s[1..]| - |r|];
      r
    else s
  }

  /** `re.sub(r"\?.*", "", url)`: every `?` and the rest of its line are removed. */
  function StripQuery(s: string): (r: string)
    ensures Lacks(r, '?')
    ensures |r| <= |s|
    decreases |s|
  {
    if s == [] then []
    else if s[0] == '?' then StripQuery(DropLine(s[1..]))
    else [s[0]] + StripQuery(s[1..])
  }

  const OrigFormatQuery := "?format=jpg&name=orig"

  /** The URL `crawl_author` hands to `download_image`: query removed, original-size JPEG requested. */
  function NormaliseImageUrl(src: string): string {
    StripQuery(src) + OrigFormatQuery
  }

  lemma {:induction false} StripQueryPlain(a: string, b: string)
    requires Lacks(a, '?')
    ensures StripQuery(a + b) == a + StripQuery(b)
    decreases |a|
  {
    if a != [] {
      assert (a + b)[0] == a[0];
      assert (a + b)[1..] == a[1..] + b;
      StripQueryPlain(a[1..], b);
    } else {
      assert a + b == b;
    }
  }

  lemma DropLineNoBreak(s: string)
    requires Lacks(s, '\n')
    ensures DropLine(s) == []
  {}

  /** On a URL without line breaks the query part is cut at the first `?`. */
  lemma {:induction false} StripQueryCutsAtFirstQuestion(u: string)
    requires Lacks(u, '\n')
    ensures StripQuery(u) == u[..|StripQuery(u)|]
    ensures |StripQuery(u)| == |u| || u[|StripQuery(u)|] == '?'
    decreases |u|
  {
    if u != [] {
      if u[0] == '?' {
        var t := DropLine(u[1..]);
        assert t == [];
      } else {
        StripQueryCutsAtFirstQuestion(u[1..]);
      }
    }
  }

  /** Normalising a normalised URL changes nothing. */
  lemma NormaliseImageUrlIdempotent(src: string)
    ensures NormaliseImageUrl(NormaliseImageUrl(src)) == NormaliseImageUrl(src)
  {
    var s := StripQuery(src);
    var n := NormaliseImageUrl(src);
    assert n == s + OrigFormatQuery;
    assert StripQuery(n) == s by {
      StripQueryOrigFormat();
      StripQueryPlain(s, OrigFormatQuery);
      assert s + [] == s;
    }
  }

  /** The query `crawl_author` appends is removed again in full. */
  lemma StripQueryOrigFormat()
    ensures StripQuery(OrigFormatQuery) == []
  {
    DropLineNoBreak(OrigFormatQuery[1..]);
  }

  // ---------------------------------------------------------------------
  // generate_keywords

  const KeywordTemplates: seq<string> := [
    "FancyFrontier{}", "開拓動漫祭{}", "FF{}", "FancyFrontier", "FF", "開拓動漫祭",
    "Fancy Frontier", "FANCEFRONTIER", "FANCE FRONTIER"
  ]

  /** `str(sessions_number)`: a string argument as it is, or "None". */
  function PyStr(arg: Option<string>): string {
    match arg
    case None => "None"
    case Some(s) => s
  }

  /** `template.format(arg)` for a template with at most one `{}`. */
  function Format(template: string, arg: string): string
    decreases |template|
  {
    if |template| < 2 then template
    else if template[..2] == "{}" then arg + template[2..]
    else [template[0]] + Format(template[1..], arg)
  }

  /** A template ending in its only `{}` takes the argument there. */
  lemma {:induction false} FormatTrailing(prefix: string, arg: string)
    requires Lacks(prefix, '{')
    ensures Format(prefix + "{}", arg) == prefix + arg
    decreases |prefix|
  {
    var t := prefix + "{}";
    if prefix != [] {
      assert t[0] == prefix[0];
      assert t[1..] == prefix[1..] + "{}";
      FormatTrailing(prefix[1..], arg);
    }
  }

  /** `[w.strip() for w in words if w.strip()]`. */
  function StrippedWords(words: seq<string>): (r: seq<string>)
    ensures |r| <= |words|
    ensures forall k :: k in r ==> k != [] && Trimmed(k)
  {
    if words == [] then []
    else
      var s := Strip(words[0]);
      if s != [] then [s] + StrippedWords(words[1..]) else StrippedWords(words[1..])
  }

  /** Every kept keyword is the stripped form of some given word. */
  lemma {:induction false} StrippedWordsSound(words: seq<string>)
    ensures forall k :: k in StrippedWords(words) ==> exists j :: 0 <= j < |words| && k == Strip(words[j])
  {
    if words != [] {
      StrippedWordsSound(words[1..]);
      StrippedWordsSoundStep(words);
    }
  }

  lemma StrippedWordsSoundStep(words: seq<string>)
    requires words != []
    requires forall k :: k in StrippedWords(words[1..]) ==> exists j :: 0 <= j < |words[1..]| && k == Strip(words[1..][j])
    ensures forall k :: k in StrippedWords(words) ==> exists j :: 0 <= j < |words| && k == Strip(words[j])
  {
    var rest := StrippedWords(words[1..]);
    assert StrippedWords(words) == (if Strip(words[0]) != [] then [Strip(words[0])] + rest else rest);
    forall k | k in StrippedWords(words) ensures exists j :: 0 <= j < |words| && k == Strip(words[j]) {
      if k in rest {
        var j :| 0 <= j < |words[1..]| && k == Strip(words[1..][j]);
        assert words[1..][j] == words[j + 1];
      } else {
        assert k == Strip(words[0]);
      }
    }
  }

  /** Every given word that is not blank is kept, stripped. */
  lemma {:induction false} StrippedWordsComplete(words: seq<string>, j: nat)
    requires j < |words| && Strip(words[j]) != []
    ensures Strip(words[j]) in StrippedWords(words)
  {
    if j > 0 {
      assert words[j] == words[1..][j - 1];
      StrippedWordsComplete(words[1..], j - 1);
    }
  }

  /** `generate_keywords`: the stripped custom keywords when any are given, else the templates filled with the session number. */
  function GenerateKeywords(sessionsNumber: Option<string>, customKeywords: seq<string>): (r: seq<string>)
    ensures customKeywords != [] ==> r == StrippedWords(customKeywords)
    ensures customKeywords == [] ==> |r| == |KeywordTemplates|
  {
    if customKeywords != [] then StrippedWords(customKeywords)
    else
      var arg := PyStr(sessionsNumber);
      seq(|KeywordTemplates|, i requires 0 <= i < |KeywordTemplates| => Format(KeywordTemplates[i], arg))
  }

  /** A template without `{` is left as it is. */
  lemma {:induction false} FormatFixed(t: string, arg: string)
    requires Lacks(t, '{')
    ensures Format(t, arg) == t
    decreases |t|
  {
    if |t| >= 2 {
      assert t[..2][0] == t[0];
      FormatFixed(t[1..], arg);
    }
  }

  /** The `i`-th default keyword, for a numbered template `prefix + "{}"`. */
  lemma NumberedKeyword(sessionsNumber: Option<string>, i: nat, prefix: string)
    requires i < 3 && KeywordTemplates[i] == prefix + "{}" && Lacks(prefix, '{')
    ensures GenerateKeywords(sessionsNumber, [])[i] == prefix + PyStr(sessionsNumber)
  {
    FormatTrailing(prefix, PyStr(sessionsNumber));
  }

  /** The default keywords after the third are the fixed templates. */
  lemma FixedKeywords(sessionsNumber: Option<string>)
    ensures GenerateKeywords(sessionsNumber, [])[3..] == KeywordTemplates[3..]
  {
    var r := GenerateKeywords(sessionsNumber, []);
    var arg := PyStr(sessionsNumber);
    FixedTemplates();
    forall i | 3 <= i < 9 ensures r[i] == KeywordTemplates[i] {
      FormatFixed(KeywordTemplates[i], arg);
    }
  }

  /** The six templates after the third have no `{}` to fill. */
  lemma FixedTemplates()
    ensures forall i :: 3 <= i < 9 ==> Lacks(KeywordTemplates[i], '{')
  {
    var t := KeywordTemplates;
    assert Lacks(t[3], '{');
    assert Lacks(t[4], '{');
    assert Lacks(t[5], '{');
    assert Lacks(t[6], '{');
    assert Lacks(t[7], '{');
    assert Lacks(t[8], '{');
  }

  /** In default mode the session number follows the three numbered templates; the other six are fixed. */
  lemma DefaultKeywords(sessionsNumber: Option<string>)
    ensures |GenerateKeywords(sessionsNumber, [])| == 9
    ensures GenerateKeywords(sessionsNumber, [])[0] == "FancyFrontier" + PyStr(sessionsNumber)
    ensures GenerateKeywords(sessionsNumber, [])[1] == "開拓動漫祭" + PyStr(sessionsNumber)
    ensures GenerateKeywords(sessionsNumber, [])[2] == "FF" + PyStr(sessionsNumber)
    ensures GenerateKeywords(sessionsNumber, [])[3..] == KeywordTemplates[3..]
  {
    FirstKeyword(sessionsNumber);
    SecondKeyword(sessionsNumber);
    ThirdKeyword(sessionsNumber);
    FixedKeywords(sessionsNumber);
  }

  lemma FirstKeyword(sessionsNumber: Option<string>)
    ensures GenerateKeywords(sessionsNumber, [])[0] == "FancyFrontier" + PyStr(sessionsNumber)
  {
    NumberedKeyword(sessionsNumber, 0, "FancyFrontier");
  }

  lemma SecondKeyword(sessionsNumber: Option<string>)
    ensures GenerateKeywords(sessionsNumber, [])[1] == "開拓動漫祭" + PyStr(sessionsNumber)
  {
    NumberedKeyword(sessionsNumber, 1, "開拓動漫祭");
  }

  lemma ThirdKeyword(sessionsNumber: Option<string>)
    ensures GenerateKeywords(sessionsNumber, [])[2] == "FF" + PyStr(sessionsNumber)
  {
    NumberedKeyword(sessionsNumber, 2, "FF");
  }
  // ---------------------------------------------------------------------
  // get_storage_states

  const StorageDir := "auth/"

  /** `re.match(r"twitter_storage_\d+\.json$", name)` (the glob pattern is implied by it). */
  predicate IsStorageName(name: string) {
    && |name| >= 22
    && name[..16] == "twitter_storage_"
    && name[|name| - 5..] == ".json"
    && AllDigits(name[16..|name| - 5])
  }

  /** The paths of the matching directory entries, in listing order. */
  function StorageMatches(names: seq<string>): (r: seq<string>)
  {
    if names == [] then []
    else if IsStorageName(names[0]) then [StorageDir + names[0]] + StorageMatches(names[1..])
    else StorageMatches(names[1..])
  }

  /** A path is in the pool exactly when it is a listed entry, under the session directory, whose name passes the filter. */
  lemma {:induction false} StorageMatchesSpec(names: seq<string>)
    ensures forall n :: n in names && IsStorageName(n) ==> StorageDir + n in StorageMatches(names)
    ensures forall p :: p in StorageMatches(names) ==> exists n :: n in names && IsStorageName(n) && p == StorageDir + n
  {
    if names != [] {
      StorageMatchesSpec(names[1..]);
      var r := StorageMatches(names);
      var rest := StorageMatches(names[1..]);
      forall n | n in names && IsStorageName(n) ensures StorageDir + n in r {
        if n != names[0] { assert n in names[1..]; }
      }
      forall p | p in r ensures exists n :: n in names && IsStorageName(n) && p == StorageDir + n {
        if p in rest {
          var n :| n in names[1..] && IsStorageName(n) && p == StorageDir + n;
          assert n in names;
        } else {
          assert p == StorageDir + names[0];
        }
      }
    }
  }

  /** `get_storage_states`: the session-token pool, sorted by code-point order of the path. */
  function StorageStates(names: seq<string>): (r: seq<string>)
    ensures Sorted(r)
    ensures multiset(r) == multiset(StorageMatches(names))
  {
    Sort(StorageMatches(names))
  }

  /** The path of the session file with index `i`, as `FollowScraper` and the login flow name it. */
  function StorageFileName(i: int): string {
    "twitter_storage_" + IntToString(i) + ".json"
  }

  /** Exactly the non-negative indices name files the pool filter accepts. */
  lemma {:induction false} StorageFileNameMatches(i: int)
    ensures IsStorageName(StorageFileName(i)) <==> i >= 0
  {
    var d := IntToString(i);
    var n := StorageFileName(i);
    assert n[..16] == "twitter_storage_";
    assert n[16..|n| - 5] == d;
    assert n[|n| - 5..] == ".json";
  }

  /** The pool is ordered by text, not by number: token 10 comes before token 2. */
  lemma StorageOrderIsTextual()
    ensures LexLe("auth/twitter_storage_10.json", "auth/twitter_storage_2.json")
    ensures !LexLe("auth/twitter_storage_2.json", "auth/twitter_storage_10.json")
  {
    var a := "auth/twitter_storage_10.json";
    var b := "auth/twitter_storage_2.json";
    assert a[..21] == b[..21];
    LexLeCommonPrefix(a, b, 21);
    LexLeCommonPrefix(b, a, 21);
  }

  lemma {:induction false} LexLeCommonPrefix(a: string, b: string, n: nat)
    requires n <= |a| && n <= |b| && a[..n] == b[..n]
    ensures LexLe(a, b) == LexLe(a[n..], b[n..])
  {
    if n > 0 {
      assert a[0] == a[..n][0] && b[0] == b[..n][0];
      assert a[1..][..n - 1] == a[1..n] == a[..n][1..];
      assert b[1..][..n - 1] == b[1..n] == b[..n][1..];
      LexLeCommonPrefix(a[1..], b[1..], n - 1);
      assert a[1..][n - 1..] == a[n..];
      assert b[1..][n - 1..] == b[n..];
    }
  }

  // ---------------------------------------------------------------------
  // generate_twitter_search_url and the author id

  function Quote(k: string): string {
    "\"" + k + "\""
  }

  /** `'"k1" OR "k2" ...'` */
  function KeywordQuery(keywords: seq<string>): string {
    Join(" OR ", seq(|keywords|, i requires 0 <= i < |keywords| => Quote(keywords[i])))
  }

  const SearchPrefix := "https://x.com/search?q=("

  /** `generate_twitter_search_url`; `formatDate` stands for the local-time `%Y-%m-%d` formatting. */
  function SearchUrl(keywords: seq<string>, author: string, untilTs: int, sinceTs: int, formatDate: int -> string): string {
    SearchPrefix + KeywordQuery(keywords) + ") (from:" + author + ")"
      + " until:" + formatDate(untilTs) + " since:" + formatDate(sinceTs)
  }

  /** The search URL starts with the search endpoint and ends with the date window. */
  lemma SearchUrlFrame(keywords: seq<string>, author: string, untilTs: int, sinceTs: int, formatDate: int -> string)
    ensures var r := SearchUrl(keywords, author, untilTs, sinceTs, formatDate);
            |SearchPrefix| <= |r| && r[..|SearchPrefix|] == SearchPrefix
    ensures var r := SearchUrl(keywords, author, untilTs, sinceTs, formatDate);
            var window := " until:" + formatDate(untilTs) + " since:" + formatDate(sinceTs);
            |window| <= |r| && r[|r| - |window|..] == window
  {
    var window := " until:" + formatDate(untilTs) + " since:" + formatDate(sinceTs);
    var body := KeywordQuery(keywords) + ") (from:" + author + ")";
    assert SearchUrl(keywords, author, untilTs, sinceTs, formatDate) == SearchPrefix + body + window;
  }

  /** The search URL asks for every keyword, quoted. */
  lemma SearchUrlHasKeyword(keywords: seq<string>, i: nat, author: string, untilTs: int, sinceTs: int, formatDate: int -> string)
    requires i < |keywords|
    ensures Contains(SearchUrl(keywords, author, untilTs, sinceTs, formatDate), Quote(keywords[i]))
  {
    var kq := KeywordQuery(keywords);
    var q := Quote(keywords[i]);
    assert Contains(kq, q) by {
      var qs := seq(|keywords|, i requires 0 <= i < |keywords| => Quote(keywords[i]));
      JoinContains(" OR ", qs, i);
    }
    ContainsPrepend(SearchPrefix, kq, q);
    var u := SearchPrefix + kq;
    ContainsAppend(u, ") (from:", q);
    u := u + ") (from:";
    ContainsAppend(u, author, q);
    u := u + author;
    ContainsAppend(u, ")", q);
    u := u + ")";
    ContainsAppend(u, " until:", q);
    u := u + " until:";
    ContainsAppend(u, formatDate(untilTs), q);
    u := u + formatDate(untilTs);
    ContainsAppend(u, " since:", q);
    u := u + " since:";
    ContainsAppend(u, formatDate(sinceTs), q);
  }

  /** The search URL restricts the search to the author. */
  lemma SearchUrlFromAuthor(keywords: seq<string>, author: string, untilTs: int, sinceTs: int, formatDate: int -> string)
    ensures Contains(SearchUrl(keywords, author, untilTs, sinceTs, formatDate), "(from:" + author + ")")
  {
    var front := SearchPrefix + KeywordQuery(keywords) + ") ";
    var window := " until:" + formatDate(untilTs) + " since:" + formatDate(sinceTs);
    assert SearchUrl(keywords, author, untilTs, sinceTs, formatDate) == front + ("(from:" + author + ")") + window;
    ContainsInMiddle(front, "(from:" + author + ")", window);
  }

  const ProfilePrefix := "https://x.com/"

  /** `author_url.replace("https://x.com/", "")`. */
  function AuthorId(authorUrl: string): (r: string)
    ensures |r| <= |authorUrl|
  {
    RemoveAll(authorUrl, ProfilePrefix)
  }

  /** A profile URL yields its handle. */
  lemma AuthorIdOfProfileUrl(handle: string)
    requires !Contains(handle, ProfilePrefix)
    ensures AuthorId(ProfilePrefix + handle) == handle
  {
    var s := ProfilePrefix + handle;
    assert s[..|ProfilePrefix|] == ProfilePrefix;
    assert s[|ProfilePrefix|..] == handle;
    RemoveAllAbsent(handle, ProfilePrefix);
  }

  // ---------------------------------------------------------------------
  // Clean-up of the user name and tweet text in crawl_author

  /** `" ".join(text.replace("·", "").strip().split())`. */
  function NormaliseName(text: string): string {
    Join(" ", Words(Strip(RemoveAll(text, "·"))))
  }

  /** A normalised name has no whitespace at its ends and no middle dot. */
  lemma NormaliseNameClean(text: string)
    ensures Trimmed(NormaliseName(text)) && Lacks(NormaliseName(text), '·')
  {
    RemoveAllLacks(text, '·');
    JoinWordsClean(RemoveAll(text, "·"), '·');
  }

  lemma SpaceLacks(c: char)
    requires !IsSpace(c)
    ensures Lacks(" ", c)
  {
    assert " "[0] == ' ';
  }

  /** Re-joining the words of a stripped string gives a trimmed string and adds no character. */
  lemma JoinWordsClean(a: string, c: char)
    requires Lacks(a, c) && !IsSpace(c)
    ensures Trimmed(Join(" ", Words(Strip(a)))) && Lacks(Join(" ", Words(Strip(a))), c)
  {
    var ws := Words(Strip(a));
    StripLacks(a, c);
    WordsLack(Strip(a), c);
    SpaceLacks(c);
    JoinLacks(" ", ws, c);
    JoinWordsTrimmed(ws);
  }

  lemma StripLacks(s: string, c: char)
    requires Lacks(s, c)
    ensures Lacks(Strip(s), c)
  {
    var r := Strip(s);
    StripSpec(s);
    var i :| StrippedAt(s, r, i);
    forall k | 0 <= k < |r| ensures r[k] != c {
      assert r[k] == s[i + k];
    }
  }

  /** Normalising a normalised name changes nothing. */
  lemma NormaliseNameIdempotent(text: string)
    ensures NormaliseName(NormaliseName(text)) == NormaliseName(text)
  {
    var n := NormaliseName(text);
    var ws := Words(Strip(RemoveAll(text, "·")));
    NormaliseNameClean(text);
    LacksNotContains(n, '·');
    RemoveAllAbsent(n, "·");
    StripTrimmed(n);
    WordsOfJoin(ws);
  }

  /** Index of the first line break, or the length. */
  function LineEnd(t: string): (n: nat)
    ensures n <= |t|
    ensures forall i :: 0 <= i < n ==> !IsLineBreak(t[i])
    ensures n == |t| || IsLineBreak(t[n])
  {
    if t == [] || IsLineBreak(t[0]) then 0 else 1 + LineEnd(t[1..])
  }

  /**
   * The pieces of `t` between single line-break characters. Empty text, a
   * final break and a `\r\n` pair give extra empty pieces where
   * `splitlines()` gives none; `KeptLines` drops empty pieces, so
   * `NormaliseContent` is the same.
   */
  function Lines(t: string): (ls: seq<string>)
    ensures ls != []
    ensures forall i :: 0 <= i < |ls| ==> forall k :: 0 <= k < |ls[i]| ==> !IsLineBreak(ls[i][k])
    ensures (forall k :: 0 <= k < |t| ==> !IsLineBreak(t[k])) ==> ls == [t]
    decreases |t|
  {
    var n := LineEnd(t);
    if n == |t| then [t] else [t[..n]] + Lines(t[n + 1..])
  }

  /** A line is the text up to the first break; the rest of the lines are those after that break. */
  lemma LinesSplit(a: string, c: char, b: string)
    requires forall k :: 0 <= k < |a| ==> !IsLineBreak(a[k])
    requires IsLineBreak(c)
    ensures Lines(a + [c] + b) == [a] + Lines(b)
  {
    var t := a + [c] + b;
    assert t[|a|] == c;
    assert forall k :: 0 <= k < |a| ==> t[k] == a[k];
    assert LineEnd(t) == |a|;
    assert t[..|a|] == a;
    assert t[|a| + 1..] == b;
  }

  /** `[l.strip() for l in lines if l.strip()]`. */
  function KeptLines(ls: seq<string>): (r: seq<string>)
    ensures forall l :: l in r ==> l != [] && Trimmed(l)
  {
    if ls == [] then []
    else
      var s := Strip(ls[0]);
      (if s != [] then [s] else []) + KeptLines(ls[1..])
  }

  lemma KeptLinesCons(x: string, ls: seq<string>)
    ensures KeptLines([x] + ls) == (if Strip(x) != [] then [Strip(x)] else []) + KeptLines(ls)
  {
    assert ([x] + ls)[1..] == ls;
  }

  /** An empty piece is dropped by the filter. */
  lemma KeptLinesEmptyPiece(ls: seq<string>)
    ensures KeptLines([[]] + ls) == KeptLines(ls)
  {
    assert ([[]] + ls)[1..] == ls;
    assert |Strip([])| == 0;
  }

  /** An empty piece after the first is dropped by the filter. */
  lemma KeptLinesSecondEmpty(x: string, ls: seq<string>)
    ensures KeptLines([x, []] + ls) == KeptLines([x] + ls)
  {
    var tail := [[]] + ls;
    assert [x, []] + ls == [x] + tail;
    KeptLinesCons(x, tail);
    KeptLinesEmptyPiece(ls);
    KeptLinesCons(x, ls);
  }

  lemma LinesCrLf(a: string, b: string)
    requires forall k :: 0 <= k < |a| ==> !IsLineBreak(a[k])
    ensures Lines(a + "\r\n" + b) == [a, []] + Lines(b)
  {
    assert a + "\r\n" + b == a + ['\r'] + ([] + ['\n'] + b);
    LinesSplit(a, '\r', [] + ['\n'] + b);
    LinesSplit([], '\n', b);
  }

  /** After the filter, a `\r\n` break gives the same lines as a single `\n`, as `splitlines()` treats the pair. */
  lemma KeptLinesCrLf(a: string, b: string)
    requires forall k :: 0 <= k < |a| ==> !IsLineBreak(a[k])
    ensures KeptLines(Lines(a + "\r\n" + b)) == KeptLines(Lines(a + "\n" + b))
  {
    LinesCrLf(a, b);
    assert a + "\n" + b == a + ['\n'] + b;
    LinesSplit(a, '\n', b);
    KeptLinesSecondEmpty(a, Lines(b));
  }

  /** After the filter, empty text gives no line, as with `splitlines()`. */
  lemma KeptLinesEmptyText()
    ensures KeptLines(Lines([])) == []
  {
    var none: seq<string> := [];
    assert Lines([]) == [[]] + none;
    KeptLinesEmptyPiece(none);
  }

  /** After the filter, a final break adds no line, as with `splitlines()`. */
  lemma KeptLinesTrailingBreak(a: string, c: char)
    requires forall k :: 0 <= k < |a| ==> !IsLineBreak(a[k])
    requires IsLineBreak(c)
    ensures KeptLines(Lines(a + [c])) == KeptLines([a])
  {
    var none: seq<string> := [];
    LinesTrailing(a, c);
    KeptLinesSecondEmpty(a, none);
    assert [a, []] + none == [a, []];
    assert [a] + none == [a];
  }

  lemma LinesTrailing(a: string, c: char)
    requires forall k :: 0 <= k < |a| ==> !IsLineBreak(a[k])
    requires IsLineBreak(c)
    ensures Lines(a + [c]) == [a, []]
  {
    var t := a + [c];
    assert t[|a|] == c;
    assert forall k :: 0 <= k < |a| ==> t[k] == a[k];
    assert LineEnd(t) == |a|;
    assert t[..|a|] == a;
    assert t[|a| + 1..] == [];
  }

  /** `"\n".join(...)` of the stripped non-empty lines of the tweet text. */
  function NormaliseContent(text: string): string {
    Join("\n", KeptLines(Lines(text)))
  }

  /** A line of the tweet that is not blank after stripping is kept. */
  lemma {:induction false} KeptLinesHas(ls: seq<string>, j: nat)
    requires j < |ls| && Strip(ls[j]) != []
    ensures Strip(ls[j]) in KeptLines(ls)
  {
    var head := Strip(ls[0]);
    var rest := KeptLines(ls[1..]);
    assert KeptLines(ls) == (if head != [] then [head] else []) + rest;
    if j > 0 {
      assert ls[1..][j - 1] == ls[j];
      KeptLinesHas(ls[1..], j - 1);
    }
  }

  /** A substring of a substring is a substring. */
  lemma ContainsTrans(s: string, m: string, k: string)
    requires Contains(s, m) && Contains(m, k)
    ensures Contains(s, k)
  {
    var i :| OccursAt(s, m, i);
    var j :| OccursAt(m, k, j);
    var a, b := s[i + j..i + j + |k|], m[j..j + |k|];
    forall t | 0 <= t < |k| ensures a[t] == b[t] {
      assert m[j + t] == s[i..i + |m|][j + t] == s[i + j + t];
    }
    assert a == b;
    assert OccursAt(s, k, i + j);
  }

  /**
   * Any text inside one stripped line of the tweet is found in the
   * normalised content, so a keyword written within a line is matched.
   */
  lemma KeywordInLine(text: string, j: nat, k: string)
    requires j < |Lines(text)| && Contains(Strip(Lines(text)[j]), k)
    ensures Contains(NormaliseContent(text), k)
  {
    var line := Strip(Lines(text)[j]);
    if line == [] {
      assert OccursAt(NormaliseContent(text), k, 0);
    } else {
      var kept := KeptLines(Lines(text));
      KeptLinesHas(Lines(text), j);
      var i :| 0 <= i < |kept| && kept[i] == line;
      JoinContains("\n", kept, i);
      ContainsTrans(NormaliseContent(text), line, k);
    }
  }

  /** `any(re.search(re.escape(k), content) for k in KEYWORDS)`. */
  predicate MatchesAnyKeyword(keywords: seq<string>, content: string) {
    exists k :: k in keywords && Contains(content, k)
  }
}
