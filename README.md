# OshinagakiFinder crawl core, modelled in Dafny

OshinagakiFinder searches X (Twitter) for recent posts by a list of authors that mention one of a
set of convention keywords (by default the "Fancy Frontier" fair and its session number) and
downloads the images of those posts. This project models the part of `TwitterCrawler` that makes
that work against an unreliable site, and proves properties of the model. It also models the
follow-list scraper of `FollowScraper`.

- **Page classification** (`PageClassifier`, classifier.dfy). After loading a search page,
  `crawl_author` decides whether it is a loading error, an empty result, or a page of tweets.
  `check_cell_divs` is the first-match scan over the page's cells.
- **The scroll-convergence scan** (`FeedScan`, feed_scan.dfy). The scan runs pass after pass over
  the tweets shown. It skips condensed tweets and tweets processed on an earlier pass, and collects
  the images of tweets that mention a keyword. It stops when the page shows no tweet, or once the
  front tweet has stayed the same for three passes.
  - The source's quirks are kept. The front id is read before the condensed check. A stalled pass
    does not merge its ids. An id repeated within one pass is handled twice. Image numbering
    restarts at 1 for every tweet, so paths collide.
  - `Scan` and `ScanPass` are loops, proved equal to the functions `ScanFrom` and `Pass`.
- **The failover state machine** (`Failover.TwitterCrawler`, failover.dfy). The class has the
  fields `currentStorageIndex`, `globalFailCount` and `allResults`. It also has the open session's
  account, a ghost log of every `crawl_author` call (account, URL, outcome) and a ghost log of
  backoff waits. The methods mirror `_crawl_author_until_success`, `_handle_crawl_error`, the
  single- and multi-account recoveries, `_reopen_context_and_test`,
  `_wait_and_reopen_context_first_account`, `_create_new_context` and `run`. The rotation order,
  attempt bounds, backoff schedule and results are stated over those logs.
- **String helpers** (`CrawlerText` and `Text`):
  - `extract_tweet_id`;
  - the `safe_author` sanitiser, the image file name and the image-URL normaliser;
  - `generate_keywords`;
  - the file-name filter and sort of `get_storage_states`;
  - `generate_twitter_search_url` and the `author_id` derivation;
  - the user-name and tweet-text clean-up.
  
  `Text` models the Python string operations they use: `strip`, `split`, `join`, `replace`, `in`,
  `str(int)` and string ordering.
- **`FollowScraper`** (`Follow`, follow.dfy). The constructor derives the storage path from the user
  number. `ExtractFollowedUsers` is the dedup-append loop, which stops after ten passes in a row
  add nothing. It is proved equal to the function `FollowFrom`.

The browser is an input everywhere:
- A page is given by the facts the code asks of it.
- A feed is a finite list of snapshots, of which the last repeats. This is how the model expresses
  that the page eventually stops changing, and both scroll loops terminate under it.
- `TwitterCrawler.browser(url, k, account)` is the page shown by the k-th page load under `account`.

Two behaviours of the code are easy to miss. The model keeps both:
- **Empty session pool.** With no stored session there is no fallback to an unauthenticated
  session. `_create_new_context` logs that it cannot search without a login and returns `False`
  without opening anything, and `run` stops at start-up (OshinagakiFinder.py:143-146, 329-339).
  `Run` returns `InitFailed` exactly when there is no stored session.
- **Success during recovery.** A successful reopen appends its own entry, and the outer `while
  True` of `_crawl_author_until_success` then crawls again (OshinagakiFinder.py:197-200, 306-310).
  An author can therefore have several entries in `all_results`.

## Model

| member | source | states |
|---|---|---|
| Text.Strip | OshinagakiFinder.py:119 | `strip()` leaves no whitespace at either end |
| Text.StripSpec | OshinagakiFinder.py:119 | `strip()` is the slice left after dropping only whitespace, and only at the two ends |
| Text.WordsOfJoin | OshinagakiFinder.py:444 | `split()` undoes `" ".join` of non-empty words without whitespace |
| Text.Contains | OshinagakiFinder.py:460 | the substring test holds exactly when the keyword occurs at some index |
| Text.RemoveAllAbsent | OshinagakiFinder.py:150 | `replace(p, "")` leaves a string not containing `p` unchanged |
| Text.RemoveAllLacks | OshinagakiFinder.py:443 | `replace("·", "")` leaves no `·` |
| Text.ParseNatToString | OshinagakiFinder.py:584 | the decimal rendering of an index reads back as that index |
| Text.NatToStringInjective | OshinagakiFinder.py:584 | different indices render differently |
| Text.IntToString | follow.py:21-22 | `str(i)` is all digits exactly when `i` is not negative |
| Text.Sort | OshinagakiFinder.py:108-111 | `sorted` returns an ordered permutation of its input |
| Text.LexLeTotal | OshinagakiFinder.py:108-111 | string order is total, so sorting is well defined |
| CrawlerText.DigitRun | OshinagakiFinder.py:562 | `\d+` takes the maximal run of digits at a position |
| CrawlerText.ExtractFromSpec | OshinagakiFinder.py:558-565 | the id is empty exactly when no `/status/<digit>` occurs; otherwise it is the digit run after the first occurrence |
| CrawlerText.ExtractTweetId | OshinagakiFinder.py:558-565 | the tweet id is all digits; it is empty iff the href has no `/status/<digit>`, else the maximal digit run after the first such match |
| CrawlerText.TweetIdOf | OshinagakiFinder.py:559-565 | no status link gives `""`; a link gives the id of its href |
| CrawlerText.TweetIdOfStatusUrl | OshinagakiFinder.py:558-565 | for `<path>/status/<id><rest>` where `path` holds no match of its own, the id is recovered exactly |
| CrawlerText.TweetIdOfUserLink | OshinagakiFinder.py:558-565 | a status link `/<user>/status/<id><rest>` gives `<id>` |
| CrawlerText.ExtractFromSkips | OshinagakiFinder.py:562 | the search skips positions where no marker starts |
| CrawlerText.SkipUnsafe | OshinagakiFinder.py:583 | drops exactly the leading run of characters outside `[A-Za-z0-9_-]` |
| CrawlerText.SanitiseSpec | OshinagakiFinder.py:583 | the sanitised name holds only `[A-Za-z0-9_-]`, is no longer than the input, and is non-empty for non-empty input |
| CrawlerText.SafeAuthorSpec | OshinagakiFinder.py:583 | `safe_author` is non-empty and safe, and is `unknown` for an empty author |
| CrawlerText.SanitiseSafe | OshinagakiFinder.py:583 | a safe name passes through unchanged |
| CrawlerText.SafeAuthorIdempotent | OshinagakiFinder.py:583 | sanitising twice is sanitising once |
| CrawlerText.SanitiseKeepsMarks | OshinagakiFinder.py:583 | letters, digits and dashes are kept in order, and none is added |
| CrawlerText.SkipUnsafeRun | OshinagakiFinder.py:583 | skipping a whole run of unsafe characters lands on what follows the run |
| CrawlerText.SanitiseUnsafeRun | OshinagakiFinder.py:583 | a maximal non-empty run of characters outside `[A-Za-z0-9_-]` becomes exactly one `_` |
| CrawlerText.MarksSkipUnsafe | OshinagakiFinder.py:583 | dropping a leading unsafe run does not change the kept characters |
| CrawlerText.SafeAuthorCollides | OshinagakiFinder.py:583 | distinct authors (`a b`, `a!?b`) share the file-name stem `a_b` |
| CrawlerText.ImagePathInjective | OshinagakiFinder.py:584-585 | for one author, different image indices give different paths |
| CrawlerText.DropLine | OshinagakiFinder.py:466 | `.*` stops at the first newline |
| CrawlerText.StripQuery | OshinagakiFinder.py:466 | the URL with its query removed has no `?` and is no longer |
| CrawlerText.StripQueryCutsAtFirstQuestion | OshinagakiFinder.py:466 | for a one-line URL the cut is a prefix ending at the first `?` |
| CrawlerText.StripQueryPlain | OshinagakiFinder.py:466 | a prefix without `?` is kept |
| CrawlerText.StripQueryOrigFormat | OshinagakiFinder.py:466 | the appended `?format=jpg&name=orig` is removed whole |
| CrawlerText.NormaliseImageUrlIdempotent | OshinagakiFinder.py:466 | normalising an already normalised image URL changes nothing |
| CrawlerText.FormatTrailing | OshinagakiFinder.py:126 | `"p{}".format(x)` is `p + x` |
| CrawlerText.FormatFixed | OshinagakiFinder.py:126 | a template without `{}` is kept |
| CrawlerText.StrippedWords | OshinagakiFinder.py:119 | custom keywords are non-empty and stripped, and there are no more of them than the words given |
| CrawlerText.StrippedWordsSound | OshinagakiFinder.py:119 | every custom keyword is the stripped form of a given word |
| CrawlerText.StrippedWordsComplete | OshinagakiFinder.py:119 | every given word that is not blank yields its stripped form |
| CrawlerText.GenerateKeywords | OshinagakiFinder.py:112-128 | custom words win when given; otherwise there are nine keywords |
| CrawlerText.NumberedKeyword | OshinagakiFinder.py:122-126 | each numbered template gets the session number (`None` when absent) |
| CrawlerText.FixedKeywords | OshinagakiFinder.py:122-126 | the six templates without `{}` are kept as they are |
| CrawlerText.DefaultKeywords | OshinagakiFinder.py:122-126 | the default list is `FancyFrontier<n>`, `開拓動漫祭<n>`, `FF<n>`, then the six fixed names |
| CrawlerText.StorageMatchesSpec | OshinagakiFinder.py:108-111 | a file is kept exactly when its name is `twitter_storage_<digits>.json`, and its path is `auth/<name>` |
| CrawlerText.StorageStates | OshinagakiFinder.py:104-111 | the pool is sorted and is a permutation of the matching paths |
| CrawlerText.StorageFileNameMatches | OshinagakiFinder.py:108-111 | `twitter_storage_<i>.json` passes the filter exactly for `i >= 0` |
| CrawlerText.StorageOrderIsTextual | OshinagakiFinder.py:108 | the order is textual: `..._10.json` comes before `..._2.json` |
| CrawlerText.LexLeCommonPrefix | OshinagakiFinder.py:108 | a shared prefix does not affect the order |
| CrawlerText.SearchUrlFrame | OshinagakiFinder.py:575-580 | the search URL starts with the search endpoint and ends with the `until:`/`since:` window |
| CrawlerText.SearchUrlHasKeyword | OshinagakiFinder.py:578-579 | every keyword appears quoted in the query |
| CrawlerText.SearchUrlFromAuthor | OshinagakiFinder.py:579 | the query restricts to `(from:<author>)` |
| CrawlerText.AuthorId | OshinagakiFinder.py:150 | the author id is no longer than the author URL |
| CrawlerText.AuthorIdOfProfileUrl | OshinagakiFinder.py:150 | for `https://x.com/<handle>` the id is the handle |
| CrawlerText.NormaliseNameClean | OshinagakiFinder.py:441-444 | the cleaned user name has no `·` and no whitespace at its ends |
| CrawlerText.StripLacks | OshinagakiFinder.py:443 | stripping adds no character |
| CrawlerText.NormaliseNameIdempotent | OshinagakiFinder.py:441-444 | cleaning a cleaned name changes nothing |
| CrawlerText.LineEnd | OshinagakiFinder.py:452 | a line ends at the first line-break character |
| CrawlerText.Lines | OshinagakiFinder.py:452 | the pieces between single line-break characters: at least one piece, no piece holds a break, and a text without a break is one piece (see the `CrawlerText.Lines` line under "## Left out" for how this differs from `splitlines()`) |
| CrawlerText.LinesSplit | OshinagakiFinder.py:452 | the first piece is the text up to the first break character, and the rest are the pieces of the text after that one character |
| CrawlerText.KeptLinesCrLf | OshinagakiFinder.py:452-453 | after the filter of stripped non-empty lines, a `\r\n` break gives the same lines as a single `\n` break |
| CrawlerText.KeptLinesTrailingBreak | OshinagakiFinder.py:452-453 | after the filter, a final break adds no line |
| CrawlerText.KeptLinesEmptyText | OshinagakiFinder.py:452-453 | after the filter, empty text gives no line |
| CrawlerText.KeptLines | OshinagakiFinder.py:452-453 | the kept lines are non-empty and stripped |
| CrawlerText.KeptLinesHas | OshinagakiFinder.py:452 | every line that is not blank is kept, stripped |
| CrawlerText.ContainsTrans | OshinagakiFinder.py:460 | a substring of a substring is a substring |
| CrawlerText.KeywordInLine | OshinagakiFinder.py:450-460 | a keyword inside one line of the tweet text is found in the cleaned content |
| PageClassifier.CheckCellDivsFails | OshinagakiFinder.py:541-556 | `check_cell_divs` is False exactly when the first cell lacking both link and tweet has a button |
| PageClassifier.CheckCellDivsNoBare | OshinagakiFinder.py:546-556 | a page whose cells all have a link or a tweet passes |
| PageClassifier.Classify | OshinagakiFinder.py:383-400 | an empty result means no container and an empty-state box; loaded means the container appeared |
| PageClassifier.ClassifyLoadError | OshinagakiFinder.py:383-400 | a loading error is exactly: neither box appears, or the container's first bare cell has a button |
| FeedScan.ScanFrom | OshinagakiFinder.py:409-487 | the scan loop keeps the duplicate count within the threshold |
| FeedScan.PassDecreases | OshinagakiFinder.py:409-487 | every pass makes progress, so the loop ends on a page that eventually stops changing |
| FeedScan.ImageDownloadsCount | OshinagakiFinder.py:462-468 | one download per image that has a `src` |
| FeedScan.ImageDownloadsComplete | OshinagakiFinder.py:463-468 | image k is fetched at its normalised URL and saved as index k+1 |
| FeedScan.ImageDownloadsSound | OshinagakiFinder.py:463-468 | every download is that of some image with a `src` |
| FeedScan.PathCollision | OshinagakiFinder.py:583-585 | two tweets by one author both having an image at position k save them to the same path |
| FeedScan.ArticleStepDownloads | OshinagakiFinder.py:427-468 | a tweet adds images only if it is not condensed, has a new id and mentions a keyword; it adds one per `src`, after the earlier downloads |
| FeedScan.FoldDownloads | OshinagakiFinder.py:421-468 | a pass keeps the earlier downloads and appends one per image with a `src` of its handled, keyword-mentioning tweets |
| FeedScan.ArticleStepSound | OshinagakiFinder.py:427-468 | a download a tweet adds is one of its images, and the tweet is handled and mentions a keyword |
| FeedScan.ArticleStepComplete | OshinagakiFinder.py:427-468 | every image with a `src` of a handled tweet that mentions a keyword is downloaded at its normalised URL |
| FeedScan.FoldDownloadsSound | OshinagakiFinder.py:421-468 | every download a pass appends is an image with a `src` of a handled, keyword-mentioning tweet of the pass, at its normalised URL and numbered path |
| FeedScan.FoldDownloadsComplete | OshinagakiFinder.py:421-468 | every image with a `src` of a handled, keyword-mentioning tweet of the pass is among the downloads it appends |
| FeedScan.FoldCurrent | OshinagakiFinder.py:437 | the ids a pass collects are those of its handled tweets |
| FeedScan.HandledIdsSpec | OshinagakiFinder.py:427-437 | an id is collected iff some tweet of the pass that is not condensed, has an id, and was not processed before carries it |
| FeedScan.HandledIdsSound | OshinagakiFinder.py:427-437 | every collected id belongs to a handled tweet of the pass |
| FeedScan.HandledIdsComplete | OshinagakiFinder.py:427-437 | the id of every handled tweet of the pass is collected |
| FeedScan.NothingHandled | OshinagakiFinder.py:427-437 | a pass with no handled tweet collects and downloads nothing |
| FeedScan.PassEffect | OshinagakiFinder.py:470-484 | a stalled pass adds 1 to the duplicate count and merges nothing; any other pass resets it, records the front id and merges the new ids; processed ids only grow |
| FeedScan.StalledPassRepeats | OshinagakiFinder.py:470-476 | after a stalled pass, the same page stalls again and downloads the same images again |
| FeedScan.MergedPassDedups | OshinagakiFinder.py:477-484 | after a merging pass, the same page stalls and downloads nothing |
| FeedScan.RepeatWithinPass | OshinagakiFinder.py:435-437 | an id repeated within one pass has its images downloaded twice |
| FeedScan.ScanExit | OshinagakiFinder.py:409-414 | the scan ends only when the duplicate count reaches 3 or the page shows no tweet |
| FeedScan.ScanGrows | OshinagakiFinder.py:409-487 | processed ids only grow, earlier downloads are kept, and the number of passes is bounded |
| FeedScan.ScanPasses | OshinagakiFinder.py:409-487 | a feed of n snapshots is scanned in at most n + 3 passes |
| FeedScan.DownloadImages | OshinagakiFinder.py:462-468 | the image loop yields the downloads `ImageDownloads` gives |
| FeedScan.ScanPass | OshinagakiFinder.py:416-487 | the article loop and front-id check compute one pass |
| FeedScan.Scan | OshinagakiFinder.py:404-487 | the scan loop computes `ScanFrom` from the initial state |
| Failover.WaitSeconds | OshinagakiFinder.py:316-318 | the backoff is 60 s exactly when the fail count is 1, otherwise 90 s |
| Failover.CrawlResultSentinels | OshinagakiFinder.py:371-400 | `(False, 1)` exactly when neither box appears or `check_cell_divs` fails; `(None, [])` exactly on the empty state; otherwise the scan's author and paths |
| Failover.EntryOf | OshinagakiFinder.py:197-200 | an entry uses `fallback_author` when the name is empty, and `[]` images for an empty page |
| Failover.ResultsOfAppend | OshinagakiFinder.py:197-200 | results of consecutive attempts concatenate |
| Failover.OuterSuccessesAppend | OshinagakiFinder.py:180-206 | outer successes of consecutive attempts concatenate |
| Failover.ResultsCount | OshinagakiFinder.py:197-200 | every attempt that is not an error appends exactly one entry |
| Failover.Rotation | OshinagakiFinder.py:259-263 | attempt j of a multi-account recovery uses an account below n |
| Failover.RotationBlocks | OshinagakiFinder.py:259-269 | attempts 3k..3k+2 use account `(start+k) % n`, and the first is `start` |
| Failover.RotationDistinct | OshinagakiFinder.py:259-260 | the n accounts of one round are distinct |
| Failover.RotationCovers | OshinagakiFinder.py:259-260 | every account is visited in a round |
| Failover.NoOuterSuccesses | OshinagakiFinder.py:211-230 | recovery attempts are never the outer loop's own success |
| Failover.TwitterCrawler.constructor | OshinagakiFinder.py:70-102 | index 0, no failures, no results; the pool and keywords are those of the helpers |
| Failover.TwitterCrawler.CreateNewContext | OshinagakiFinder.py:324-345 | a context opens exactly when the pool is non-empty; otherwise nothing changes |
| Failover.TwitterCrawler.CrawlAuthor | OshinagakiFinder.py:371-491 | the outcome is the page's classification and scan, and the attempt is logged |
| Failover.TwitterCrawler.ReopenAndTest | OshinagakiFinder.py:280-310 | reopens with the account, logs one attempt, and returns True iff it is not an error (then one entry is appended) |
| Failover.TwitterCrawler.WaitAndReopenFirstAccount | OshinagakiFinder.py:312-322 | fail count +1; waits 60 s iff the count is now 1, else 90 s; reopens with account 0 |
| Failover.TwitterCrawler.RetryAccount | OshinagakiFinder.py:234-245 | 1 to 3 attempts with one account, all failed but the last; 3 if none succeeded |
| Failover.TwitterCrawler.HandleErrorSingleAccount | OshinagakiFinder.py:234-245 | at most 3 attempts with account 0, stopping at the first that is not an error; otherwise exactly one backoff |
| Failover.TwitterCrawler.HandleErrorMultiAccount | OshinagakiFinder.py:247-278 | attempt j uses account `(start + j/3) % n`, at most 3n attempts, stopping at the first success, which becomes the current account; if all fail, index 0 and one backoff |
| Failover.TwitterCrawler.HandleCrawlError | OshinagakiFinder.py:211-232 | one round of recovery in the mode the pool size selects, with the rotation order; on success the successful account is current; on failure exactly 3n attempts, one backoff, and index and session 0; with one session the index is unchanged |
| Failover.TwitterCrawler.OuterAttempt | OshinagakiFinder.py:180-206 | one outer crawl: success appends its entry and stops, an error runs one recovery |
| Failover.TwitterCrawler.CrawlAuthorUntilSuccess | OshinagakiFinder.py:173-206 | returns only after its own crawl is not an error and appends that entry; every success (outer or in recovery) appends one entry |
| Failover.TwitterCrawler.CrawlAuthorOf | OshinagakiFinder.py:149-160 | every attempt for an author uses that author's search URL |
| Failover.TwitterCrawler.CrawlAuthors | OshinagakiFinder.py:149-160 | the authors are crawled in order; when the loop completes, the outer successes are exactly the author list, and every attempt uses its author's search URL |
| Failover.TwitterCrawler.Run | OshinagakiFinder.py:134-160 | aborts iff there is no stored session; otherwise each author in turn succeeds once in the outer loop, over the one-month window |
| Follow.CellUrl | follow.py:33-37 | a cell contributes `https://x.com<href>` exactly when its link has a non-empty href |
| Follow.AddPassGrows | follow.py:38-40 | a pass only appends, so the existing prefix is kept |
| Follow.AddPassNoDup | follow.py:38-40 | `followed_users` never gets a duplicate |
| Follow.AddPassSound | follow.py:33-40 | every appended URL comes from a cell of the pass |
| Follow.AddPassCovers | follow.py:32-40 | after a pass, every URL of its cells is followed |
| Follow.AddPassCovered | follow.py:38-40 | a pass whose URLs are all followed appends nothing |
| Follow.AddPassNothingNew | follow.py:31-42 | a pass adds nothing exactly when all its URLs are already followed |
| Follow.FollowPassDecreases | follow.py:27-47 | every pass makes progress, so the loop ends on a page that eventually stops changing |
| Follow.FollowFromSpec | follow.py:27-48 | the loop keeps the earlier URLs and no duplicates; it settles with the count exactly 10, or times out on a page without user cells |
| Follow.FollowFromCovers | follow.py:41-46 | on settling, every URL of the last page read is followed |
| Follow.UserStoragePath | follow.py:18-22 | the storage index is `user_number - 1`, and 0 when absent; the file is one the crawler picks up exactly when the number is at least 1 |
| Follow.FollowScraper.constructor | follow.py:18-23 | the storage path is `auth/twitter_storage_<user_number-1>.json`, and there are no URLs yet |
| Follow.FollowScraper.CollectPass | follow.py:30-40 | the cell loop appends the new URLs, and `new_count` is the number appended |
| Follow.FollowScraper.ExtractFollowedUsers | follow.py:25-48 | the loop computes `FollowFrom`, with `same_count_times` reset on news, incremented otherwise, and exiting at 10 |

## Left out

- Playwright lifecycle: `init_browser`, `close_browser`, `stop_playwright`, user agents and selector
  timeouts. These are a foreign library. The model keeps only which account's context is open, and
  the page facts the code reads.
- Random sleeps and `smooth_scroll` (182-184, 290-293, 567-573). These use random durations and
  wall-clock time; scrolling is replaced by moving to the next snapshot.
- `download_image` network retry (586-611): the HTTP fetch is not modelled. A download is
  recorded as the URL fetched and the path returned, which is returned whether or not the file
  was written. The `Timeout` branch refers to an unbound `e`; the model does not reach it.
- `generate_html` (613-635): report output, a file write.
- `datetime.fromtimestamp(...).strftime` (576-577): local-time formatting is an uninterpreted
  parameter `formatDate`. `time.time()` is the parameter `now`.
- database.py, authenticate.py, main.py and logger.py are not part of this model. The author URL
  list is an input sequence, and the `./auth` directory listing is an input sequence of file names.
- `follow.py` `run` and `insert_followed_users_to_db`: browser start-up and database writes.
- `_create_new_context`: the check that the session file exists on disk is not modelled; every
  listed file is taken to exist.
- `CrawlerText.DigitRun`: `\d` is modelled as the ASCII digits, here and in the session-file filter
  `CrawlerText.IsStorageName` (OshinagakiFinder.py:110). Python also matches other Unicode decimal
  digits.
- `Failover.TwitterCrawler.CrawlAuthor`: the model takes every page load and every page query to
  succeed. In the source, a Playwright error raised outside the two `try` blocks of the scan
  (OshinagakiFinder.py:383-385, 535-538), for example a `page.goto` timeout at line 380, is not
  caught. It propagates through `_reopen_context_and_test`, `_crawl_author_until_success` and
  `run`, and ends the run before `generate_html`; the failover never sees it. The `Run` contract
  holds only for runs in which no such error is raised.
- `Failover.TwitterCrawler.CrawlAuthorUntilSuccess`: the outer `while True` makes at most `fuel`
  outer crawls, and `Run` reports `OutOfFuel` when that bound is reached. The source loops forever.
- `Failover.TwitterCrawler.HandleCrawlError`: requires at least one stored session. With none, the
  source would call `crawl_author` without a page and fail. `run` never gets there, since it stops
  at start-up.
- `Failover.TwitterCrawler.RetryAccount`: the two recovery modes share this one retry loop. The
  source writes the loop twice, once in each mode.
- Feeds are finite lists of snapshots whose last one repeats. A feed that keeps changing forever is
  not modelled.
- Timeouts of the selector waits are modelled only as page facts. In follow.py, a pass whose page
  has no user cell stands for the 10-second wait raising; `ExtractFollowedUsers` then returns
  `ok == false`.
- `CrawlerText.Lines`: the text is split at every single break character. Empty text, a final break
  and a `\r\n` pair give extra empty pieces where `splitlines()` gives none. `KeptLines` drops every
  empty piece, as the source's filter does, so `NormaliseContent` gives the content of
  OshinagakiFinder.py:452-453 (`KeptLinesCrLf`, `KeptLinesTrailingBreak` and `KeptLinesEmptyText` state this).
- `TwitterCrawler.__init__`: the creation of `download_dir` on disk is not modelled.
- `CrawlerText.ImagePath`: `download_dir / filename` is modelled as the text `dir + "/" + name`. The
  normalisation that `pathlib` applies (a trailing slash of `dir`, `./` segments) is not modelled.
