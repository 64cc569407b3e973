/**
 * The per-author failover machinery of `TwitterCrawler` in
 * OshinagakiFinder.py: crawl an author's search page, and on a loading
 * error reopen the browser context, retrying the same account or rotating
 * through the stored accounts, and back off for 60 then 90 seconds when a
 * whole round of retries fails.
 *
 * The browser is an input: `browser(url, k, account)` is the page shown by
 * the `k`-th page load when the context was opened with `account`.  Sleeps
 * are not performed; each backoff is recorded in the ghost list `waits`.
 * Every call of `crawl_author` is recorded in the ghost list `log`, so the
 * order of accounts tried and the number of attempts can be stated.
 */
module Failover {
  import opened Options
  import opened Text
  import opened CrawlerText
  import opened PageClassifier
  import opened FeedScan

  /** `ONE_MONTH_SECONDS`: the width of the search window. */
  const OneMonthSeconds := 2592000
  /** `MAX_REOPEN_TIMES`: attempts per account in one round of recovery. */
  const MaxReopenTimes := 3
  /** `WAIT_SEQUENCE`. */
  const WaitSequence: seq<nat> := [60, 90]

  /** The backoff taken once `global_fail_count` has become `failCount`. */
  function WaitSeconds(failCount: nat): (w: nat)
    ensures w == 60 || w == 90
    ensures w == 60 <==> failCount == 1
  {
    if failCount == 1 then WaitSequence[0] else WaitSequence[1]
  }

  // ---------------------------------------------------------------------
  // What one call of crawl_author yields

  /** The page a search URL loads: its first view and the snapshots the scan loop reads. */
  datatype Page = Page(view: PageView, feed: seq<seq<Article>>)

  /** The three kinds of result of `crawl_author`. */
  datatype CrawlOutcome =
    | CrawlError                                      // `(False, 1)`
    | EmptyPage                                       // `(None, [])`
    | Crawled(authorName: string, paths: seq<string>) // `(author_name, downloaded_paths)`

  /** The paths returned by a list of downloads. */
  function Paths(ds: seq<Download>): (r: seq<string>)
    ensures |r| == |ds|
    ensures forall i :: 0 <= i < |ds| ==> r[i] == ds[i].path
  {
    seq(|ds|, i requires 0 <= i < |ds| => ds[i].path)
  }

  /** What `crawl_author` returns for a page: classify it, then scan it. */
  function CrawlResult(c: ScanConfig, page: Page): CrawlOutcome {
    match Classify(page.view)
    case LoadError => CrawlError
    case EmptyResult => EmptyPage
    case Loaded =>
      var s := ScanFrom(c, page.feed, InitialScan);
      Crawled(s.authorName, Paths(s.downloads))
  }

  /**
   * `crawl_author` signals a loading error exactly when neither the tweet
   * container nor the empty-state box appears, or when the container appears
   * and its first bare cell holds a button; it reports an empty page exactly
   * when only the empty-state box appears.  Otherwise it returns the scan's
   * author name and paths.
   */
  lemma CrawlResultSentinels(c: ScanConfig, page: Page)
    ensures CrawlResult(c, page) == CrawlError <==>
              (!page.view.container && !page.view.emptyState)
              || (page.view.container && exists i :: FirstBare(page.view.cells, i) && page.view.cells[i].hasButton)
    ensures CrawlResult(c, page) == EmptyPage <==> !page.view.container && page.view.emptyState
    ensures CrawlResult(c, page).Crawled? ==>
              page.view.container &&
              CrawlResult(c, page).paths == Paths(ScanFrom(c, page.feed, InitialScan).downloads)
  {
    ClassifyLoadError(page.view);
  }

  // ---------------------------------------------------------------------
  // Results and the attempt log

  /** One entry of `all_results`. */
  datatype Entry = Entry(author: string, images: seq<string>)

  /**
   * The entry appended for an outcome that is not an error: the author name
   * when it is non-empty, else `fallback_author`; the paths, or no images
   * for an empty page (whose `images` is an empty list).
   */
  function EntryOf(outcome: CrawlOutcome, fallback: string): (e: Entry)
    requires !outcome.CrawlError?
    ensures e.author == fallback || (outcome.Crawled? && e.author == outcome.authorName != [])
    ensures outcome.Crawled? && outcome.authorName != [] ==> e.author == outcome.authorName
    ensures outcome.EmptyPage? ==> e.images == []
    ensures outcome.Crawled? ==> e.images == outcome.paths
  {
    match outcome
    case EmptyPage => Entry(fallback, [])
    case Crawled(name, paths) => Entry(if name != [] then name else fallback, paths)
  }

  /** Whether a call of `crawl_author` was the outer loop's own or a test inside recovery. */
  datatype Origin = Outer | Recovery

  /** One call of `crawl_author`: the account whose context was open, the URL, and what it returned. */
  datatype Attempt = Attempt(account: nat, url: string, fallback: string, origin: Origin, outcome: CrawlOutcome)

  /** The entries a sequence of attempts appends: one per attempt that is not an error. */
  function ResultsOf(log: seq<Attempt>): seq<Entry> {
    if log == [] then []
    else
      var a := log[|log| - 1];
      ResultsOf(log[..|log| - 1]) + (if a.outcome.CrawlError? then [] else [EntryOf(a.outcome, a.fallback)])
  }

  /** The authors whose outer crawl succeeded, in order. */
  function OuterSuccesses(log: seq<Attempt>): seq<string> {
    if log == [] then []
    else
      var a := log[|log| - 1];
      OuterSuccesses(log[..|log| - 1]) + (if a.origin == Outer && !a.outcome.CrawlError? then [a.fallback] else [])
  }

  /** The entries of two stretches of attempts are the entries of each, in order. */
  lemma {:induction false} ResultsOfAppend(log1: seq<Attempt>, log2: seq<Attempt>)
    ensures ResultsOf(log1 + log2) == ResultsOf(log1) + ResultsOf(log2)
  {
    if log2 != [] {
      var log := log1 + log2;
      assert log[..|log| - 1] == log1 + log2[..|log2| - 1];
      ResultsOfAppend(log1, log2[..|log2| - 1]);
    } else {
      assert log1 + log2 == log1;
    }
  }

  /** The same for the outer successes. */
  lemma {:induction false} OuterSuccessesAppend(log1: seq<Attempt>, log2: seq<Attempt>)
    ensures OuterSuccesses(log1 + log2) == OuterSuccesses(log1) + OuterSuccesses(log2)
  {
    if log2 != [] {
      var log := log1 + log2;
      assert log[..|log| - 1] == log1 + log2[..|log2| - 1];
      OuterSuccessesAppend(log1, log2[..|log2| - 1]);
    } else {
      assert log1 + log2 == log1;
    }
  }

  /** Every attempt that is not an error appends exactly one entry. */
  lemma {:induction false} ResultsCount(log: seq<Attempt>)
    ensures |ResultsOf(log)| == |Successes(log)|
  {
    if log != [] {
      ResultsCount(log[..|log| - 1]);
    }
  }

  /** The attempts that are not errors. */
  function Successes(log: seq<Attempt>): seq<Attempt> {
    if log == [] then []
    else
      var a := log[|log| - 1];
      Successes(log[..|log| - 1]) + (if a.outcome.CrawlError? then [] else [a])
  }

  /** A stretch of attempts that all retry `url` for `fallback` during recovery. */
  predicate Retrying(run: seq<Attempt>, url: string, fallback: string) {
    forall i :: 0 <= i < |run| ==> run[i].url == url && run[i].fallback == fallback && run[i].origin == Recovery
  }

  /** Every attempt but the last failed. */
  predicate FailedBeforeLast(run: seq<Attempt>) {
    forall i :: 0 <= i < |run| - 1 ==> run[i].outcome.CrawlError?
  }

  // ---------------------------------------------------------------------
  // The rotation over accounts

  /**
   * The account of the `j`-th attempt (from 0) of a multi-account recovery
   * that starts at account `start`: three attempts per account, accounts in
   * cyclic order.
   */
  function Rotation(start: nat, n: nat, j: nat): (a: nat)
    requires n > 0
    ensures a < n
  {
    (start + j / MaxReopenTimes) % n
  }

  /** `x % n` for `x` below `2 * n`. */
  lemma SmallMod(x: nat, n: nat)
    requires 0 < n && x < 2 * n
    ensures x % n == (if x < n then x else x - n)
  {
    if x >= n {
      assert x == n + (x - n);
      assert (x - n) % n == x - n;
    }
  }

  /** The `k`-th account of the rotation, for `k` below `n`. */
  lemma RotationStep(start: nat, n: nat, k: nat)
    requires start < n && k < n
    ensures (start + k) % n == (if start + k < n then start + k else start + k - n)
  {
    SmallMod(start + k, n);
  }

  /** The rotation visits `n` distinct accounts, so each one at most once per round. */
  lemma RotationDistinct(start: nat, n: nat, k1: nat, k2: nat)
    requires start < n && k1 < k2 < n
    ensures (start + k1) % n != (start + k2) % n
  {
    RotationStep(start, n, k1);
    RotationStep(start, n, k2);
  }

  /** Every account is visited in a round: account `a` is the `k`-th, for `k` its distance from `start`. */
  lemma RotationCovers(start: nat, n: nat, a: nat)
    requires start < n && a < n
    ensures var k := if a >= start then a - start else n - start + a;
            k < n && (start + k) % n == a
  {
    var k := if a >= start then a - start else n - start + a;
    RotationStep(start, n, k);
  }

  /** Attempts `3k`, `3k+1`, `3k+2` of the rotation all use the `k`-th account, which starts the round at `start`. */
  lemma RotationBlocks(start: nat, n: nat, k: nat, r: nat)
    requires n > 0 && r < MaxReopenTimes
    ensures Rotation(start, n, MaxReopenTimes * k + r) == (start + k) % n
    ensures start < n ==> Rotation(start, n, 0) == start
  {
    assert (MaxReopenTimes * k + r) / MaxReopenTimes == k;
  }

  // ---------------------------------------------------------------------
  // The crawler

  /** How `run` ends in the model: no stored session, every author done, or the fuel bound reached. */
  datatype RunStatus = InitFailed | Finished | OutOfFuel

  class TwitterCrawler {
    /** `storage_states`: the session files, sorted. */
    const storageStates: seq<string>
    /** `KEYWORDS`. */
    const keywords: seq<string>
    /** `download_dir`. */
    const downloadDir: string
    /** The browser: the page shown by the `k`-th page load for a URL under an account. */
    const browser: (string, nat, nat) -> Page

    var currentStorageIndex: nat
    var globalFailCount: nat
    var allResults: seq<Entry>
    /** The account of the open context and page, if one is open. */
    var session: Option<nat>
    /** Page loads so far. */
    var loads: nat

    /** Every call of `crawl_author`, in order. */
    ghost var log: seq<Attempt>
    /** Every backoff taken, in seconds, in order. */
    ghost var waits: seq<nat>

    /**
     * The index names a stored session (or is 0 when there is none), the
     * open context uses a stored session, backoff `i` (from 0) waited
     * `WaitSeconds(i + 1)`, and the results are those of the attempts.
     */
    ghost predicate Valid()
      reads this
    {
      && (currentStorageIndex < |storageStates| || currentStorageIndex == 0)
      && (session.Some? ==> session.value < |storageStates|)
      && |waits| == globalFailCount
      && (forall i :: 0 <= i < |waits| ==> waits[i] == WaitSeconds(i + 1))
      && allResults == ResultsOf(log)
    }

    function Config(): ScanConfig {
      ScanConfig(keywords, downloadDir)
    }

    /** `__init__`: the session files from the names in `./auth`, and the keywords. */
    constructor (authNames: seq<string>, sessionsNumber: Option<string>, customKeywords: seq<string>,
                 downloadDir: string, browser: (string, nat, nat) -> Page)
      ensures Valid()
      ensures storageStates == StorageStates(authNames)
      ensures keywords == GenerateKeywords(sessionsNumber, customKeywords)
      ensures this.downloadDir == downloadDir && this.browser == browser
      ensures currentStorageIndex == 0 && globalFailCount == 0 && allResults == []
      ensures session == None && log == [] && waits == []
    {
      storageStates := StorageStates(authNames);
      keywords := GenerateKeywords(sessionsNumber, customKeywords);
      this.downloadDir := downloadDir;
      this.browser := browser;
      currentStorageIndex := 0;
      globalFailCount := 0;
      allResults := [];
      session := None;
      loads := 0;
      log := [];
      waits := [];
    }

    /** `close_context`. */
    method CloseContext()
      modifies this`session
      ensures session == None
    {
      session := None;
    }

    /** `_create_new_context`: fails, opening nothing, when there is no stored session. */
    method CreateNewContext(account: nat) returns (ok: bool)
      requires |storageStates| > 0 ==> account < |storageStates|
      modifies this`session
      ensures ok <==> |storageStates| > 0
      ensures session == (if ok then Some(account) else old(session))
    {
      if storageStates == [] {
        return false;
      }
      session := Some(account);
      ok := true;
    }

    /** `crawl_author`: load the URL, classify the page, and scan it. */
    method CrawlAuthor(url: string, ghost fallback: string, ghost origin: Origin) returns (outcome: CrawlOutcome)
      requires session.Some?
      modifies this`loads, this`log
      ensures outcome == CrawlResult(Config(), browser(url, old(loads), session.value))
      ensures loads == old(loads) + 1
      ensures log == old(log) + [Attempt(session.value, url, fallback, origin, outcome)]
    {
      var page := browser(url, loads, session.value);
      loads := loads + 1;
      var state := Classify(page.view);
      if state == LoadError {
        outcome := CrawlError;
      } else if state == EmptyResult {
        outcome := EmptyPage;
      } else {
        var s := Scan(Config(), page.feed);
        outcome := Crawled(s.authorName, Paths(s.downloads));
      }
      log := log + [Attempt(session.value, url, fallback, origin, outcome)];
    }

    /** Record the entry of an outcome that is not an error, keeping `Valid`. */
    method Record(outcome: CrawlOutcome, fallback: string)
      requires !outcome.CrawlError? && |log| > 0
      requires allResults == ResultsOf(log[..|log| - 1])
      requires log[|log| - 1].outcome == outcome && log[|log| - 1].fallback == fallback
      modifies this`allResults
      ensures allResults == old(allResults) + [EntryOf(outcome, fallback)]
      ensures allResults == ResultsOf(log)
    {
      allResults := allResults + [EntryOf(outcome, fallback)];
    }

    /**
     * `_reopen_context_and_test`: close the context, open one with
     * `account`, crawl again, and append an entry unless it is an error.
     */
    method ReopenAndTest(url: string, fallback: string, account: nat) returns (ok: bool)
      requires Valid() && account < |storageStates|
      modifies this`session, this`loads, this`log, this`allResults
      ensures Valid()
      ensures session == Some(account)
      ensures |log| == |old(log)| + 1 && old(log) <= log
      ensures log[|log| - 1].account == account && log[|log| - 1].url == url
      ensures log[|log| - 1].fallback == fallback && log[|log| - 1].origin == Recovery
      ensures log[|log| - 1].outcome == CrawlResult(Config(), browser(url, old(loads), account))
      ensures ok <==> !log[|log| - 1].outcome.CrawlError?
    {
      CloseContext();
      var created := CreateNewContext(account);
      var outcome := CrawlAuthor(url, fallback, Recovery);
      assert log[..|log| - 1] == old(log);
      if outcome.CrawlError? {
        ok := false;
      } else {
        Record(outcome, fallback);
        ok := true;
      }
    }

    /** `_wait_and_reopen_context_first_account`: one more failure, its backoff, and account 0. */
    method WaitAndReopenFirstAccount() returns (waited: nat)
      requires Valid()
      modifies this`globalFailCount, this`waits, this`session
      ensures Valid()
      ensures globalFailCount == old(globalFailCount) + 1
      ensures waited == (if globalFailCount == 1 then 60 else 90)
      ensures waits == old(waits) + [waited]
      ensures session == (if |storageStates| > 0 then Some(0) else None)
    {
      globalFailCount := globalFailCount + 1;
      waited := WaitSeconds(globalFailCount);
      waits := waits + [waited];
      CloseContext();
      var created := CreateNewContext(0);
    }

    /**
     * The retry loop of both recovery modes: up to `MAX_REOPEN_TIMES`
     * reopen-and-test attempts with one account, stopping at the first
     * that is not an error.
     */
    method RetryAccount(url: string, fallback: string, account: nat) returns (recovered: bool)
      requires Valid() && account < |storageStates|
      modifies this`session, this`loads, this`log, this`allResults
      ensures Valid()
      ensures session == Some(account)
      ensures old(log) <= log
      ensures 1 <= |log| - |old(log)| <= MaxReopenTimes
      ensures forall i :: |old(log)| <= i < |log| ==> log[i].account == account
      ensures Retrying(log[|old(log)|..], url, fallback)
      ensures FailedBeforeLast(log[|old(log)|..])
      ensures recovered <==> !log[|log| - 1].outcome.CrawlError?
      ensures !recovered ==> |log| - |old(log)| == MaxReopenTimes
    {
      recovered := false;
      var tries := 0;
      while tries < MaxReopenTimes && !recovered
        invariant Valid()
        invariant tries <= MaxReopenTimes
        invariant |log| == |old(log)| + tries && old(log) <= log
        invariant tries > 0 ==> session == Some(account)
        invariant forall i :: |old(log)| <= i < |log| ==> log[i].account == account
        invariant forall i :: |old(log)| <= i < |log| ==>
                    log[i].url == url && log[i].fallback == fallback && log[i].origin == Recovery
        invariant forall i :: |old(log)| <= i < |log| - 1 ==> log[i].outcome.CrawlError?
        invariant tries > 0 ==> (recovered <==> !log[|log| - 1].outcome.CrawlError?)
        invariant tries == 0 ==> !recovered
      {
        recovered := ReopenAndTest(url, fallback, account);
        tries := tries + 1;
      }
    }

    /** `_handle_error_single_account`: retry the one account, and back off if every retry failed. */
    method HandleErrorSingleAccount(url: string, fallback: string, account: nat) returns (recovered: bool)
      requires Valid() && account < |storageStates|
      modifies this`session, this`loads, this`log, this`allResults, this`globalFailCount, this`waits
      ensures Valid()
      ensures old(log) <= log
      ensures 1 <= |log| - |old(log)| <= MaxReopenTimes
      ensures forall i :: |old(log)| <= i < |log| ==> log[i].account == account
      ensures Retrying(log[|old(log)|..], url, fallback)
      ensures FailedBeforeLast(log[|old(log)|..])
      ensures recovered <==> !log[|log| - 1].outcome.CrawlError?
      ensures recovered ==> globalFailCount == old(globalFailCount) && session == Some(account)
      ensures !recovered ==> |log| - |old(log)| == MaxReopenTimes
      ensures !recovered ==> globalFailCount == old(globalFailCount) + 1 && session == Some(0)
      ensures currentStorageIndex == old(currentStorageIndex)
    {
      recovered := RetryAccount(url, fallback, account);
      if !recovered {
        var waited := WaitAndReopenFirstAccount();
      }
    }

    /**
     * `_handle_error_multi_account`: starting from the current account, give
     * each account in cyclic order its retries; on the first success make
     * that account current, and if all fail go back to account 0 and back off.
     */
    method HandleErrorMultiAccount(url: string, fallback: string) returns (recovered: bool)
      requires Valid() && |storageStates| > 0
      modifies this`session, this`loads, this`log, this`allResults, this`globalFailCount, this`waits
      modifies this`currentStorageIndex
      ensures Valid()
      ensures old(log) <= log
      ensures 1 <= |log| - |old(log)| <= MaxReopenTimes * |storageStates|
      ensures forall j :: 0 <= j < |log| - |old(log)| ==>
                log[|old(log)| + j].account == Rotation(old(currentStorageIndex), |storageStates|, j)
      ensures Retrying(log[|old(log)|..], url, fallback)
      ensures FailedBeforeLast(log[|old(log)|..])
      ensures recovered <==> !log[|log| - 1].outcome.CrawlError?
      ensures recovered ==> currentStorageIndex == log[|log| - 1].account && session == Some(currentStorageIndex)
      ensures recovered ==> globalFailCount == old(globalFailCount)
      ensures !recovered ==> |log| - |old(log)| == MaxReopenTimes * |storageStates|
      ensures !recovered ==> currentStorageIndex == 0 && session == Some(0)
      ensures !recovered ==> globalFailCount == old(globalFailCount) + 1
    {
      var start := currentStorageIndex;
      var n := |storageStates|;
      var accountsTried := 0;
      recovered := false;
      while accountsTried < n && !recovered
        decreases n - accountsTried, if recovered then 0 else 1
        invariant Valid()
        invariant currentStorageIndex == start
        invariant globalFailCount == old(globalFailCount) && waits == old(waits)
        invariant accountsTried <= n
        invariant old(log) <= log
        invariant !recovered ==> |log| == |old(log)| + MaxReopenTimes * accountsTried
        invariant recovered ==> accountsTried < n && MaxReopenTimes * accountsTried < |log| - |old(log)| <= MaxReopenTimes * accountsTried + MaxReopenTimes
        invariant recovered ==> session == Some((start + accountsTried) % n) && !log[|log| - 1].outcome.CrawlError?
        invariant recovered ==> log[|log| - 1].account == (start + accountsTried) % n
        invariant forall j :: 0 <= j < |log| - |old(log)| ==> log[|old(log)| + j].account == Rotation(start, n, j)
        invariant forall i :: |old(log)| <= i < |log| ==>
                    log[i].url == url && log[i].fallback == fallback && log[i].origin == Recovery
        invariant forall i :: |old(log)| <= i < |log| - (if recovered then 1 else 0) ==> log[i].outcome.CrawlError?
      {
        var account := (start + accountsTried) % n;
        ghost var before := log;
        recovered := RetryAccount(url, fallback, account);
        forall j | MaxReopenTimes * accountsTried <= j < |log| - |old(log)|
          ensures log[|old(log)| + j].account == Rotation(start, n, j)
        {
          RotationBlocks(start, n, accountsTried, j - MaxReopenTimes * accountsTried);
        }
        if !recovered {
          accountsTried := accountsTried + 1;
        }
      }
      if recovered {
        currentStorageIndex := (start + accountsTried) % n;
      } else {
        currentStorageIndex := 0;
        var waited := WaitAndReopenFirstAccount();
      }
    }

    /** `_handle_crawl_error`: the single-account mode for one stored session, the rotation for more. */
    method HandleCrawlError(url: string, fallback: string) returns (recovered: bool)
      requires Valid() && |storageStates| > 0
      modifies this`session, this`loads, this`log, this`allResults, this`globalFailCount, this`waits
      modifies this`currentStorageIndex
      ensures Valid() && session.Some?
      ensures old(log) <= log
      ensures 1 <= |log| - |old(log)| <= MaxReopenTimes * |storageStates|
      ensures forall j :: 0 <= j < |log| - |old(log)| ==>
                log[|old(log)| + j].account == Rotation(old(currentStorageIndex), |storageStates|, j)
      ensures Retrying(log[|old(log)|..], url, fallback)
      ensures FailedBeforeLast(log[|old(log)|..])
      ensures recovered <==> !log[|log| - 1].outcome.CrawlError?
      ensures globalFailCount == old(globalFailCount) + (if recovered then 0 else 1)
      ensures recovered ==> currentStorageIndex == log[|log| - 1].account && session == Some(currentStorageIndex)
      ensures !recovered ==> |log| - |old(log)| == MaxReopenTimes * |storageStates|
      ensures !recovered ==> currentStorageIndex == 0 && session == Some(0)
      ensures |storageStates| == 1 ==> currentStorageIndex == old(currentStorageIndex)
    {
      if |storageStates| <= 1 {
        recovered := HandleErrorSingleAccount(url, fallback, 0);
      } else {
        recovered := HandleErrorMultiAccount(url, fallback);
      }
    }

    /**
     * One turn of the `while True` loop of `_crawl_author_until_success`:
     * crawl, and either append the entry and stop, or run one recovery.
     */
    method OuterAttempt(url: string, fallback: string) returns (done: bool)
      requires Valid() && session.Some? && |storageStates| > 0
      modifies this`session, this`loads, this`log, this`allResults, this`globalFailCount, this`waits
      modifies this`currentStorageIndex
      ensures Valid() && session.Some?
      ensures old(log) <= log
      ensures ForAuthor(log[|old(log)|..], url, fallback)
      ensures OuterSuccesses(log[|old(log)|..]) == (if done then [fallback] else [])
      ensures done ==> |log| == |old(log)| + 1 && log[|log| - 1].origin == Outer && !log[|log| - 1].outcome.CrawlError?
      ensures done ==> allResults == old(allResults) + [EntryOf(log[|log| - 1].outcome, fallback)]
    {
      ghost var before := log;
      var outcome := CrawlAuthor(url, fallback, Outer);
      assert log[..|log| - 1] == before;
      ghost var first := log[|before|..];
      assert first == [log[|log| - 1]];
      if outcome.CrawlError? {
        ghost var mid := log;
        var recovered := HandleCrawlError(url, fallback);
        ghost var rest := log[|mid|..];
        assert log[|before|..] == first + rest;
        NoOuterSuccesses(rest, url, fallback);
        StretchJoin(first, rest, url, fallback);
        done := false;
      } else {
        Record(outcome, fallback);
        done := true;
      }
    }

    /**
     * `_crawl_author_until_success`: crawl, recover from each loading error,
     * and stop at the first outer crawl that is not an error, appending its
     * entry.  Recoveries that succeed append entries of their own.  At most
     * `fuel` outer crawls are made.
     */
    method CrawlAuthorUntilSuccess(url: string, fallback: string, fuel: nat) returns (done: bool)
      requires Valid() && session.Some? && |storageStates| > 0
      modifies this`session, this`loads, this`log, this`allResults, this`globalFailCount, this`waits
      modifies this`currentStorageIndex
      ensures Valid() && session.Some?
      ensures old(log) <= log
      ensures allResults == old(allResults) + ResultsOf(log[|old(log)|..])
      ensures ForAuthor(log[|old(log)|..], url, fallback)
      ensures OuterSuccesses(log[|old(log)|..]) == (if done then [fallback] else [])
      ensures done ==> log[|log| - 1].origin == Outer && !log[|log| - 1].outcome.CrawlError?
      ensures done ==> allResults[|allResults| - 1] == EntryOf(log[|log| - 1].outcome, fallback)
    {
      ghost var log0 := log;
      done := false;
      var left := fuel;
      while left > 0 && !done
        invariant Valid() && session.Some?
        invariant log0 <= log
        invariant ForAuthor(log[|log0|..], url, fallback)
        invariant OuterSuccesses(log[|log0|..]) == (if done then [fallback] else [])
        invariant done ==> |log| > |log0| && log[|log| - 1].origin == Outer && !log[|log| - 1].outcome.CrawlError?
        invariant done ==> |allResults| > 0 && allResults[|allResults| - 1] == EntryOf(log[|log| - 1].outcome, fallback)
      {
        ghost var before := log;
        done := OuterAttempt(url, fallback);
        StretchExtend(log0, before, log, url, fallback);
        left := left - 1;
      }
      assert allResults == old(allResults) + ResultsOf(log[|log0|..]) by {
        ResultsSince(log0, log);
      }
    }

    /** One turn of the loop of `run`: the author's search URL, crawled until it succeeds. */
    method CrawlAuthorOf(authorUrl: string, untilTs: int, sinceTs: int, formatDate: int -> string, fuel: nat)
      returns (done: bool)
      requires Valid() && session.Some? && |storageStates| > 0
      modifies this`session, this`loads, this`log, this`allResults, this`globalFailCount, this`waits
      modifies this`currentStorageIndex
      ensures Valid() && session.Some?
      ensures old(log) <= log
      ensures Searched(log[|old(log)|..], keywords, untilTs, sinceTs, formatDate)
      ensures OuterSuccesses(log[|old(log)|..]) == (if done then [authorUrl] else [])
    {
      var authorId := AuthorId(authorUrl);
      var searchUrl := SearchUrl(keywords, authorId, untilTs, sinceTs, formatDate);
      done := CrawlAuthorUntilSuccess(searchUrl, authorUrl, fuel);
      ForAuthorSearched(log[|old(log)|..], keywords, authorUrl, untilTs, sinceTs, formatDate);
    }

    /**
     * `run`: open the first context, then crawl every author's search URL
     * for the month before `now` until it succeeds.  With no stored session
     * the browser cannot start and nothing is crawled.
     */
    method Run(authorUrls: seq<string>, now: int, formatDate: int -> string, fuel: nat) returns (status: RunStatus)
      requires Valid()
      modifies this`session, this`loads, this`log, this`allResults, this`globalFailCount, this`waits
      modifies this`currentStorageIndex
      ensures Valid()
      ensures status == InitFailed <==> |storageStates| == 0
      ensures status == InitFailed ==> log == old(log) && allResults == old(allResults)
      ensures old(log) <= log
      ensures allResults == old(allResults) + ResultsOf(log[|old(log)|..])
      ensures status == Finished ==> OuterSuccesses(log[|old(log)|..]) == authorUrls
      ensures Searched(log[|old(log)|..], keywords, now, now - OneMonthSeconds, formatDate)
    {
      var untilTs := now;
      var sinceTs := untilTs - OneMonthSeconds;
      var ok := CreateNewContext(currentStorageIndex);
      if !ok {
        return InitFailed;
      }
      ghost var log0 := log;
      var finished := CrawlAuthors(authorUrls, untilTs, sinceTs, formatDate, fuel);
      assert allResults == old(allResults) + ResultsOf(log[|old(log)|..]) by {
        ResultsSince(log0, log);
      }
      status := if finished then Finished else OutOfFuel;
    }

    /** The loop of `run` over the authors, stopping early only when the fuel bound is reached. */
    method CrawlAuthors(authorUrls: seq<string>, untilTs: int, sinceTs: int, formatDate: int -> string, fuel: nat)
      returns (finished: bool)
      requires Valid() && session.Some? && |storageStates| > 0
      modifies this`session, this`loads, this`log, this`allResults, this`globalFailCount, this`waits
      modifies this`currentStorageIndex
      ensures Valid()
      ensures old(log) <= log
      ensures finished ==> OuterSuccesses(log[|old(log)|..]) == authorUrls
      ensures Searched(log[|old(log)|..], keywords, untilTs, sinceTs, formatDate)
    {
      ghost var log0 := log;
      var i := 0;
      while i < |authorUrls|
        invariant Valid() && session.Some?
        invariant i <= |authorUrls|
        invariant log0 <= log
        invariant OuterSuccesses(log[|log0|..]) == authorUrls[..i]
        invariant Searched(log[|log0|..], keywords, untilTs, sinceTs, formatDate)
      {
        var authorUrl := authorUrls[i];
        ghost var before := log;
        var done := CrawlAuthorOf(authorUrl, untilTs, sinceTs, formatDate, fuel);
        if !done {
          SearchedExtend(log0, before, log, keywords, untilTs, sinceTs, formatDate);
          return false;
        }
        AuthorsStep(log0, before, log, keywords, untilTs, sinceTs, formatDate, authorUrls[..i], authorUrl);
        PrefixStep(authorUrls, i);
        i := i + 1;
      }
      assert authorUrls[..i] == authorUrls;
      finished := true;
    }
  }

  /** All attempts of a stretch crawl `url` for `fallback`. */
  predicate ForAuthor(run: seq<Attempt>, url: string, fallback: string) {
    forall i :: 0 <= i < |run| ==> run[i].url == url && run[i].fallback == fallback
  }

  /** Two stretches for one author make one, whose outer successes are those of each. */
  lemma StretchJoin(run1: seq<Attempt>, run2: seq<Attempt>, url: string, fallback: string)
    requires ForAuthor(run1, url, fallback) && ForAuthor(run2, url, fallback)
    ensures ForAuthor(run1 + run2, url, fallback)
    ensures OuterSuccesses(run1 + run2) == OuterSuccesses(run1) + OuterSuccesses(run2)
  {
    OuterSuccessesAppend(run1, run2);
  }

  /** Extending the attempts since `log0` by those since `mid`. */
  lemma StretchExtend(log0: seq<Attempt>, mid: seq<Attempt>, log: seq<Attempt>, url: string, fallback: string)
    requires log0 <= mid <= log
    requires ForAuthor(mid[|log0|..], url, fallback) && ForAuthor(log[|mid|..], url, fallback)
    ensures ForAuthor(log[|log0|..], url, fallback)
    ensures OuterSuccesses(log[|log0|..]) == OuterSuccesses(mid[|log0|..]) + OuterSuccesses(log[|mid|..])
  {
    assert log[|log0|..] == mid[|log0|..] + log[|mid|..];
    StretchJoin(mid[|log0|..], log[|mid|..], url, fallback);
  }

  /** The results of a log are those up to `log0` followed by those since. */
  lemma ResultsSince(log0: seq<Attempt>, log: seq<Attempt>)
    requires log0 <= log
    ensures ResultsOf(log) == ResultsOf(log0) + ResultsOf(log[|log0|..])
  {
    assert log == log0 + log[|log0|..];
    ResultsOfAppend(log0, log[|log0|..]);
  }

  /** Every attempt of a stretch crawls the search URL of its own author for the window `sinceTs`..`untilTs`. */
  predicate Searched(run: seq<Attempt>, keywords: seq<string>, untilTs: int, sinceTs: int, formatDate: int -> string) {
    forall i :: 0 <= i < |run| ==>
      run[i].url == SearchUrl(keywords, AuthorId(run[i].fallback), untilTs, sinceTs, formatDate)
  }

  /** One author's attempts all crawl that author's search URL. */
  lemma ForAuthorSearched(run: seq<Attempt>, keywords: seq<string>, authorUrl: string,
                          untilTs: int, sinceTs: int, formatDate: int -> string)
    requires ForAuthor(run, SearchUrl(keywords, AuthorId(authorUrl), untilTs, sinceTs, formatDate), authorUrl)
    ensures Searched(run, keywords, untilTs, sinceTs, formatDate)
  {
  }

  /** Extending the attempts since `log0` by those since `mid`. */
  lemma SearchedExtend(log0: seq<Attempt>, mid: seq<Attempt>, log: seq<Attempt>, keywords: seq<string>,
                       untilTs: int, sinceTs: int, formatDate: int -> string)
    requires log0 <= mid <= log
    requires Searched(mid[|log0|..], keywords, untilTs, sinceTs, formatDate)
    requires Searched(log[|mid|..], keywords, untilTs, sinceTs, formatDate)
    ensures Searched(log[|log0|..], keywords, untilTs, sinceTs, formatDate)
  {
    var a, b := mid[|log0|..], log[|mid|..];
    var ab := log[|log0|..];
    forall i | 0 <= i < |ab| ensures ab[i] == (if i < |a| then a[i] else b[i - |a|]) {
    }
  }

  lemma PrefixStep<T>(s: seq<T>, i: nat)
    requires i < |s|
    ensures s[..i + 1] == s[..i] + [s[i]]
  {
  }

  /** One more author crawled to success extends the outer successes by that author. */
  lemma AuthorsStep(log0: seq<Attempt>, mid: seq<Attempt>, log: seq<Attempt>, keywords: seq<string>,
                    untilTs: int, sinceTs: int, formatDate: int -> string, earlier: seq<string>, authorUrl: string)
    requires log0 <= mid <= log
    requires Searched(mid[|log0|..], keywords, untilTs, sinceTs, formatDate)
    requires Searched(log[|mid|..], keywords, untilTs, sinceTs, formatDate)
    requires OuterSuccesses(mid[|log0|..]) == earlier
    requires OuterSuccesses(log[|mid|..]) == [authorUrl]
    ensures Searched(log[|log0|..], keywords, untilTs, sinceTs, formatDate)
    ensures OuterSuccesses(log[|log0|..]) == earlier + [authorUrl]
  {
    SearchedExtend(log0, mid, log, keywords, untilTs, sinceTs, formatDate);
    assert log[|log0|..] == mid[|log0|..] + log[|mid|..];
    OuterSuccessesAppend(mid[|log0|..], log[|mid|..]);
  }

  /** A stretch of recovery attempts holds no outer success. */
  lemma {:induction false} NoOuterSuccesses(run: seq<Attempt>, url: string, fallback: string)
    requires Retrying(run, url, fallback)
    ensures OuterSuccesses(run) == []
  {
    if run != [] {
      NoOuterSuccesses(run[..|run| - 1], url, fallback);
    }
  }
}
