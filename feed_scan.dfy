/**
 * The scan loop of `crawl_author` in OshinagakiFinder.py: pass after pass
 * over the tweets the search page shows, it collects the images of new
 * tweets whose text mentions a keyword, and stops once the front tweet has
 * stayed the same for three scrolls or the page shows no tweets.
 *
 * The browser is an input: `feed[k]` is what the page shows on the k-th
 * pass (after k scrolls), and the page stops changing after the last
 * snapshot, which is shown again on every later pass. Downloads are not
 * performed: each one is recorded as the URL fetched and the path returned.
 */
module FeedScan {
  import opened Options
  import opened Text
  import opened CrawlerText
  import opened PageClassifier

  /** `DUPLICATE_THRESHOLD`. */
  const DuplicateThreshold := 3

  /** One `article[data-testid="tweet"]`, as the scan loop reads it. */
  datatype Article = Article(
    condensed: bool,              // it holds a `testCondensedMedia` box
    statusHref: Option<string>,   // href of its first link containing "/status/"
    userName: Option<string>,     // text of its `User-Name` box, if any
    tweetText: Option<string>,    // text of its `tweetText` box, if any
    photos: seq<Option<string>>)  // `src` of each `tweetPhoto` image, in order

  /** One call of `download_image`: the URL requested and the path returned. */
  datatype Download = Download(url: string, path: string)

  datatype ScanConfig = ScanConfig(keywords: seq<string>, downloadDir: string)

  /** What one pass accumulates: `current_tweet_ids`, `author_name`, `downloaded_paths`. */
  datatype PassAcc = PassAcc(current: set<string>, authorName: string, downloads: seq<Download>)

  /** The variables of the scan loop, plus the number of passes made so far. */
  datatype ScanState = ScanState(
    processed: set<string>,   // processed_tweet_ids
    duplicates: nat,          // duplicate_count
    lastSeen: Option<string>, // last_seen_tweet_id
    isFirst: bool,            // is_first_process
    authorName: string,       // author_name
    downloads: seq<Download>, // downloaded_paths, with the URL of each
    passes: nat)              // scrolls so far: the snapshot the next pass reads

  const InitialScan := ScanState({}, 0, None, true, "", [], 0)

  /** What the page shows on pass `k`: the last snapshot repeats; no snapshots means no tweets. */
  function Snapshot(feed: seq<seq<Article>>, k: nat): (arts: seq<Article>)
    ensures feed != [] && k >= |feed| - 1 ==> arts == feed[|feed| - 1]
  {
    if feed == [] then []
    else if k < |feed| then feed[k]
    else feed[|feed| - 1]
  }

  // ---------------------------------------------------------------------
  // One article

  function ArticleId(a: Article): string {
    TweetIdOf(a.statusHref)
  }

  /** The cleaned tweet text, or "" when the article has no text box. */
  function Content(a: Article): string {
    match a.tweetText
    case None => ""
    case Some(t) => NormaliseContent(t)
  }

  /** The article is handled: not condensed, with an id not processed on an earlier pass. */
  predicate Handled(processed: set<string>, a: Article) {
    !a.condensed && ArticleId(a) != [] && ArticleId(a) !in processed
  }

  /** `src` is present and not empty. */
  predicate HasSrc(src: Option<string>) {
    src.Some? && src.value != []
  }

  /** The download of the `index`-th image (counting from 1), if it has a `src`. */
  function ImageDownload(src: Option<string>, author: string, dir: string, index: nat): seq<Download> {
    if HasSrc(src) then [Download(NormaliseImageUrl(src.value), ImagePath(dir, author, index))] else []
  }

  /** The downloads for the images of one tweet, numbered from 1 by their place in the list. */
  function ImageDownloads(photos: seq<Option<string>>, author: string, dir: string): seq<Download> {
    if photos == [] then []
    else
      ImageDownloads(photos[..|photos| - 1], author, dir)
        + ImageDownload(photos[|photos| - 1], author, dir, |photos|)
  }

  /** The number of images of a tweet that have a `src`. */
  function SrcCount(photos: seq<Option<string>>): nat {
    if photos == [] then 0
    else SrcCount(photos[..|photos| - 1]) + (if HasSrc(photos[|photos| - 1]) then 1 else 0)
  }

  /** The body of the article loop for one article. */
  function ArticleStep(c: ScanConfig, processed: set<string>, a: Article, acc: PassAcc): PassAcc {
    if !Handled(processed, a) then acc
    else
      var name := if a.userName.Some? then NormaliseName(a.userName.value) else acc.authorName;
      var found := if MatchesAnyKeyword(c.keywords, Content(a)) then ImageDownloads(a.photos, name, c.downloadDir) else [];
      PassAcc(acc.current + {ArticleId(a)}, name, acc.downloads + found)
  }

  /** The article loop over `arts`, in order, starting from `acc`. */
  function Fold(c: ScanConfig, processed: set<string>, arts: seq<Article>, acc: PassAcc): PassAcc {
    if arts == [] then acc
    else ArticleStep(c, processed, arts[|arts| - 1], Fold(c, processed, arts[..|arts| - 1], acc))
  }

  // ---------------------------------------------------------------------
  // One pass and the whole scan

  /** The front tweet did not change since the last pass that was not stalled. */
  predicate Stalls(s: ScanState, arts: seq<Article>)
    requires arts != []
  {
    Some(ArticleId(arts[0])) == s.lastSeen && !s.isFirst
  }

  function PassStart(s: ScanState): PassAcc {
    PassAcc({}, s.authorName, s.downloads)
  }

  /** One iteration of the scan loop over a non-empty snapshot. */
  function Pass(c: ScanConfig, s: ScanState, arts: seq<Article>): ScanState
    requires arts != []
  {
    var acc := Fold(c, s.processed, arts, PassStart(s));
    if Stalls(s, arts) then
      ScanState(s.processed, s.duplicates + 1, s.lastSeen, false, acc.authorName, acc.downloads, s.passes + 1)
    else
      ScanState(s.processed + acc.current, 0, Some(ArticleId(arts[0])), false, acc.authorName, acc.downloads, s.passes + 1)
  }

  predicate ScanInv(s: ScanState) {
    s.duplicates <= DuplicateThreshold
  }

  /** Passes left before the page stops changing. */
  function Unsettled(feed: seq<seq<Article>>, s: ScanState): nat {
    if s.passes + 1 < |feed| then |feed| - 1 - s.passes else 0
  }

  /** Once the page has stopped changing: stalled passes left before the threshold, or 4 before the front is recorded. */
  function StallsLeft(feed: seq<seq<Article>>, s: ScanState): nat
    requires ScanInv(s)
  {
    var arts := Snapshot(feed, s.passes);
    if arts != [] && Stalls(s, arts) then DuplicateThreshold - s.duplicates else DuplicateThreshold + 1
  }

  /** The scan loop from state `s` on. */
  function ScanFrom(c: ScanConfig, feed: seq<seq<Article>>, s: ScanState): (r: ScanState)
    requires ScanInv(s)
    ensures ScanInv(r)
    decreases Unsettled(feed, s), StallsLeft(feed, s)
  {
    if s.duplicates >= DuplicateThreshold then s
    else
      var arts := Snapshot(feed, s.passes);
      if arts == [] then s
      else
        var s' := Pass(c, s, arts);
        PassDecreases(c, feed, s);
        ScanFrom(c, feed, s')
  }

  /** Every pass makes progress: the page changes less, or the front tweet comes closer to the threshold. */
  lemma PassDecreases(c: ScanConfig, feed: seq<seq<Article>>, s: ScanState)
    requires ScanInv(s) && s.duplicates < DuplicateThreshold && Snapshot(feed, s.passes) != []
    ensures ScanInv(Pass(c, s, Snapshot(feed, s.passes)))
    ensures var s' := Pass(c, s, Snapshot(feed, s.passes));
            Unsettled(feed, s') < Unsettled(feed, s)
            || (Unsettled(feed, s') == Unsettled(feed, s) && StallsLeft(feed, s') < StallsLeft(feed, s))
  {
    var arts := Snapshot(feed, s.passes);
    var s' := Pass(c, s, arts);
    if Unsettled(feed, s) == 0 {
      assert Snapshot(feed, s'.passes) == arts;
    }
  }

  // ---------------------------------------------------------------------
  // What one tweet contributes

  /** `dl` is the download of the image at position `k` of `photos` (numbered `k + 1`). */
  ghost predicate ImageOf(photos: seq<Option<string>>, author: string, dir: string, k: int, dl: Download) {
    && 0 <= k < |photos| && HasSrc(photos[k])
    && dl == Download(NormaliseImageUrl(photos[k].value), ImagePath(dir, author, k + 1))
  }

  /** One download per image with a `src`. */
  lemma {:induction false} ImageDownloadsCount(photos: seq<Option<string>>, author: string, dir: string)
    ensures |ImageDownloads(photos, author, dir)| == SrcCount(photos)
  {
    if photos != [] {
      ImageDownloadsCount(photos[..|photos| - 1], author, dir);
    }
  }

  /** Every image with a `src` is requested in original size and saved under its place in the list. */
  lemma {:induction false} ImageDownloadsComplete(photos: seq<Option<string>>, author: string, dir: string, k: nat)
    requires k < |photos| && HasSrc(photos[k])
    ensures Download(NormaliseImageUrl(photos[k].value), ImagePath(dir, author, k + 1)) in ImageDownloads(photos, author, dir)
  {
    var n := |photos| - 1;
    var dl := Download(NormaliseImageUrl(photos[k].value), ImagePath(dir, author, k + 1));
    var front := ImageDownloads(photos[..n], author, dir);
    var last := ImageDownload(photos[n], author, dir, n + 1);
    assert ImageDownloads(photos, author, dir) == front + last;
    if k < n {
      assert dl in front by {
        assert photos[..n][k] == photos[k];
        ImageDownloadsComplete(photos[..n], author, dir, k);
      }
    } else {
      assert k == n;
      assert dl == last[0];
    }
  }

  /** Every download is that of some image with a `src`. */
  lemma {:induction false} ImageDownloadsSound(photos: seq<Option<string>>, author: string, dir: string)
    ensures forall dl :: dl in ImageDownloads(photos, author, dir) ==> exists k :: ImageOf(photos, author, dir, k, dl)
  {
    if photos != [] {
      var n := |photos| - 1;
      ImageDownloadsSound(photos[..n], author, dir);
      forall dl | dl in ImageDownloads(photos, author, dir)
        ensures exists k :: ImageOf(photos, author, dir, k, dl)
      {
        if dl in ImageDownloads(photos[..n], author, dir) {
          var k :| ImageOf(photos[..n], author, dir, k, dl);
          assert ImageOf(photos, author, dir, k, dl);
        } else {
          assert ImageOf(photos, author, dir, n, dl);
        }
      }
    }
  }

  /**
   * Two tweets by the same author that both have an image with a `src` at
   * the same place get the same path for it, whatever the URLs: the later
   * download overwrites the earlier.
   */
  lemma PathCollision(photos1: seq<Option<string>>, photos2: seq<Option<string>>, author: string, dir: string, k: nat)
    requires k < |photos1| && HasSrc(photos1[k])
    requires k < |photos2| && HasSrc(photos2[k])
    ensures exists d1, d2 ::
              && d1 in ImageDownloads(photos1, author, dir) && d2 in ImageDownloads(photos2, author, dir)
              && d1.url == NormaliseImageUrl(photos1[k].value) && d2.url == NormaliseImageUrl(photos2[k].value)
              && d1.path == d2.path
  {
    ImageDownloadsComplete(photos1, author, dir, k);
    ImageDownloadsComplete(photos2, author, dir, k);
    var p := ImagePath(dir, author, k + 1);
    assert Download(NormaliseImageUrl(photos1[k].value), p).path == Download(NormaliseImageUrl(photos2[k].value), p).path;
  }

  /** The tweet's text mentions some keyword. */
  predicate Mentions(c: ScanConfig, a: Article) {
    MatchesAnyKeyword(c.keywords, Content(a))
  }

  /** The number of images one article adds to the downloads. */
  function ArticleImages(c: ScanConfig, processed: set<string>, a: Article): nat {
    if Handled(processed, a) && Mentions(c, a) then SrcCount(a.photos) else 0
  }

  /** Ids of the handled articles of a pass: `current_tweet_ids`. */
  function HandledIds(processed: set<string>, arts: seq<Article>): set<string> {
    if arts == [] then {}
    else
      var a := arts[|arts| - 1];
      HandledIds(processed, arts[..|arts| - 1]) + (if Handled(processed, a) then {ArticleId(a)} else {})
  }

  /** Images a pass adds to the downloads. */
  function PassImages(c: ScanConfig, processed: set<string>, arts: seq<Article>): nat {
    if arts == [] then 0
    else PassImages(c, processed, arts[..|arts| - 1]) + ArticleImages(c, processed, arts[|arts| - 1])
  }

  /**
   * An article adds images only when it is handled and mentions a keyword,
   * and then one per image with a `src`; earlier downloads are kept.
   */
  lemma ArticleStepDownloads(c: ScanConfig, processed: set<string>, a: Article, acc: PassAcc)
    ensures var r := ArticleStep(c, processed, a, acc);
            && |r.downloads| == |acc.downloads| + ArticleImages(c, processed, a)
            && r.downloads[..|acc.downloads|] == acc.downloads
  {
    if Handled(processed, a) {
      var name := if a.userName.Some? then NormaliseName(a.userName.value) else acc.authorName;
      ImageDownloadsCount(a.photos, name, c.downloadDir);
    }
  }

  /** A pass adds exactly the images of its handled, keyword-mentioning articles, after the earlier ones. */
  lemma {:induction false} FoldDownloads(c: ScanConfig, processed: set<string>, arts: seq<Article>, acc: PassAcc)
    ensures var r := Fold(c, processed, arts, acc);
            && |r.downloads| == |acc.downloads| + PassImages(c, processed, arts)
            && r.downloads[..|acc.downloads|] == acc.downloads
  {
    if arts != [] {
      var n := |arts| - 1;
      var mid := Fold(c, processed, arts[..n], acc);
      FoldDownloads(c, processed, arts[..n], acc);
      ArticleStepDownloads(c, processed, arts[n], mid);
      var r := Fold(c, processed, arts, acc);
      assert r.downloads[..|mid.downloads|][..|acc.downloads|] == r.downloads[..|acc.downloads|];
    }
  }

  /** `dl` is the download of image `k` of article `i` of the pass, a handled article mentioning a keyword, saved under `name`. */
  ghost predicate PassImageOf(c: ScanConfig, processed: set<string>, arts: seq<Article>, i: int, name: string, k: int, dl: Download) {
    && 0 <= i < |arts| && Handled(processed, arts[i]) && Mentions(c, arts[i])
    && ImageOf(arts[i].photos, name, c.downloadDir, k, dl)
  }

  /** A download the article step appends is that of one of the article's images, and the article is handled and mentions a keyword. */
  lemma ArticleStepSound(c: ScanConfig, processed: set<string>, a: Article, acc: PassAcc, j: nat)
    requires |acc.downloads| <= j < |ArticleStep(c, processed, a, acc).downloads|
    ensures var r := ArticleStep(c, processed, a, acc);
            && Handled(processed, a) && Mentions(c, a)
            && exists k :: ImageOf(a.photos, r.authorName, c.downloadDir, k, r.downloads[j])
  {
    var r := ArticleStep(c, processed, a, acc);
    var found := ImageDownloads(a.photos, r.authorName, c.downloadDir);
    assert Handled(processed, a) && Mentions(c, a) && r.downloads == acc.downloads + found;
    assert r.downloads[j] in found by {
      assert r.downloads[j] == found[j - |acc.downloads|];
    }
    ImageDownloadsSound(a.photos, r.authorName, c.downloadDir);
  }

  /** Each image with a `src` of a handled article that mentions a keyword is among the downloads the article step appends. */
  lemma ArticleStepComplete(c: ScanConfig, processed: set<string>, a: Article, acc: PassAcc, k: nat)
    requires Handled(processed, a) && Mentions(c, a) && k < |a.photos| && HasSrc(a.photos[k])
    ensures var r := ArticleStep(c, processed, a, acc);
            exists j :: |acc.downloads| <= j < |r.downloads| && ImageOf(a.photos, r.authorName, c.downloadDir, k, r.downloads[j])
  {
    var r := ArticleStep(c, processed, a, acc);
    var found := ImageDownloads(a.photos, r.authorName, c.downloadDir);
    assert r.downloads == acc.downloads + found;
    ImageDownloadsComplete(a.photos, r.authorName, c.downloadDir, k);
    var dl := Download(NormaliseImageUrl(a.photos[k].value), ImagePath(c.downloadDir, r.authorName, k + 1));
    var t :| 0 <= t < |found| && found[t] == dl;
    assert r.downloads[|acc.downloads| + t] == dl;
    assert ImageOf(a.photos, r.authorName, c.downloadDir, k, dl);
  }

  /** Every download a pass appends is that of an image with a `src` of a handled article that mentions a keyword. */
  lemma {:induction false} FoldDownloadsSound(c: ScanConfig, processed: set<string>, arts: seq<Article>, acc: PassAcc, j: nat)
    requires |acc.downloads| <= j < |Fold(c, processed, arts, acc).downloads|
    ensures exists i, name, k :: PassImageOf(c, processed, arts, i, name, k, Fold(c, processed, arts, acc).downloads[j])
  {
    var n := |arts| - 1;
    var a := arts[n];
    var mid := Fold(c, processed, arts[..n], acc);
    var r := ArticleStep(c, processed, a, mid);
    assert r == Fold(c, processed, arts, acc);
    FoldDownloads(c, processed, arts[..n], acc);
    if j < |mid.downloads| {
      ArticleStepDownloads(c, processed, a, mid);
      assert r.downloads[j] == r.downloads[..|mid.downloads|][j] == mid.downloads[j];
      FoldDownloadsSound(c, processed, arts[..n], acc, j);
      var i, name, k :| PassImageOf(c, processed, arts[..n], i, name, k, mid.downloads[j]);
      assert arts[..n][i] == arts[i];
      assert PassImageOf(c, processed, arts, i, name, k, r.downloads[j]);
    } else {
      ArticleStepSound(c, processed, a, mid, j);
      var k :| ImageOf(a.photos, r.authorName, c.downloadDir, k, r.downloads[j]);
      assert PassImageOf(c, processed, arts, n, r.authorName, k, r.downloads[j]);
    }
  }

  /** Every image with a `src` of a handled article that mentions a keyword is among the downloads the pass appends. */
  lemma {:induction false} FoldDownloadsComplete(c: ScanConfig, processed: set<string>, arts: seq<Article>, acc: PassAcc, i: nat, k: nat)
    requires i < |arts| && Handled(processed, arts[i]) && Mentions(c, arts[i])
    requires k < |arts[i].photos| && HasSrc(arts[i].photos[k])
    ensures exists j, name :: |acc.downloads| <= j < |Fold(c, processed, arts, acc).downloads|
              && PassImageOf(c, processed, arts, i, name, k, Fold(c, processed, arts, acc).downloads[j])
  {
    var n := |arts| - 1;
    var a := arts[n];
    var mid := Fold(c, processed, arts[..n], acc);
    var r := ArticleStep(c, processed, a, mid);
    assert r == Fold(c, processed, arts, acc);
    FoldDownloads(c, processed, arts[..n], acc);
    if i < n {
      assert arts[..n][i] == arts[i];
      FoldDownloadsComplete(c, processed, arts[..n], acc, i, k);
      var j, name :| |acc.downloads| <= j < |mid.downloads| && PassImageOf(c, processed, arts[..n], i, name, k, mid.downloads[j]);
      ArticleStepDownloads(c, processed, a, mid);
      assert r.downloads[j] == r.downloads[..|mid.downloads|][j];
      assert PassImageOf(c, processed, arts, i, name, k, r.downloads[j]);
    } else {
      ArticleStepComplete(c, processed, a, mid, k);
      var j :| |mid.downloads| <= j < |r.downloads| && ImageOf(a.photos, r.authorName, c.downloadDir, k, r.downloads[j]);
      assert PassImageOf(c, processed, arts, i, r.authorName, k, r.downloads[j]);
    }
  }

  /** The ids a pass collects are those of its handled articles. */
  lemma {:induction false} FoldCurrent(c: ScanConfig, processed: set<string>, arts: seq<Article>, acc: PassAcc)
    ensures Fold(c, processed, arts, acc).current == acc.current + HandledIds(processed, arts)
  {
    if arts != [] {
      FoldCurrent(c, processed, arts[..|arts| - 1], acc);
    }
  }

  /** An id is collected exactly when some handled article of the pass carries it. */
  lemma HandledIdsSpec(processed: set<string>, arts: seq<Article>, x: string)
    ensures x in HandledIds(processed, arts) <==>
              exists i :: 0 <= i < |arts| && Handled(processed, arts[i]) && ArticleId(arts[i]) == x
  {
    if x in HandledIds(processed, arts) {
      HandledIdsSound(processed, arts, x);
    }
    if exists i :: 0 <= i < |arts| && Handled(processed, arts[i]) && ArticleId(arts[i]) == x {
      var i :| 0 <= i < |arts| && Handled(processed, arts[i]) && ArticleId(arts[i]) == x;
      HandledIdsComplete(processed, arts, i);
    }
  }

  lemma {:induction false} HandledIdsSound(processed: set<string>, arts: seq<Article>, x: string)
    requires x in HandledIds(processed, arts)
    ensures exists i :: 0 <= i < |arts| && Handled(processed, arts[i]) && ArticleId(arts[i]) == x
  {
    var n := |arts| - 1;
    var front := arts[..n];
    if x in HandledIds(processed, front) {
      HandledIdsSound(processed, front, x);
      var i :| 0 <= i < n && Handled(processed, front[i]) && ArticleId(front[i]) == x;
      assert arts[i] == front[i];
    } else {
      assert Handled(processed, arts[n]) && ArticleId(arts[n]) == x;
    }
  }

  lemma {:induction false} HandledIdsComplete(processed: set<string>, arts: seq<Article>, i: nat)
    requires i < |arts| && Handled(processed, arts[i])
    ensures ArticleId(arts[i]) in HandledIds(processed, arts)
  {
    var n := |arts| - 1;
    if i < n {
      assert arts[..n][i] == arts[i];
      HandledIdsComplete(processed, arts[..n], i);
    }
  }

  /** A pass in which no article is handled collects nothing and downloads nothing. */
  lemma {:induction false} NothingHandled(c: ScanConfig, processed: set<string>, arts: seq<Article>)
    requires forall i :: 0 <= i < |arts| ==> !Handled(processed, arts[i])
    ensures HandledIds(processed, arts) == {}
    ensures PassImages(c, processed, arts) == 0
  {
    if arts != [] {
      var n := |arts| - 1;
      assert forall i :: 0 <= i < n ==> arts[..n][i] == arts[i];
      NothingHandled(c, processed, arts[..n]);
    }
  }

  // ---------------------------------------------------------------------
  // What one pass does to the loop state

  /**
   * A stalled pass (same front tweet as the last recorded one, not the first
   * pass) counts one more duplicate and keeps the processed ids and the last
   * seen id; any other pass resets the count, records its front tweet and
   * merges the ids it handled into the processed ids.
   */
  lemma PassEffect(c: ScanConfig, s: ScanState, arts: seq<Article>)
    requires arts != []
    ensures var r := Pass(c, s, arts);
            && (Stalls(s, arts) ==> r.duplicates == s.duplicates + 1 && r.processed == s.processed && r.lastSeen == s.lastSeen)
            && (!Stalls(s, arts) ==>
                  r.duplicates == 0 && r.lastSeen == Some(ArticleId(arts[0]))
                  && r.processed == s.processed + HandledIds(s.processed, arts))
            && !r.isFirst && r.passes == s.passes + 1
            && s.processed <= r.processed
            && |r.downloads| == |s.downloads| + PassImages(c, s.processed, arts)
            && r.downloads[..|s.downloads|] == s.downloads
  {
    FoldCurrent(c, s.processed, arts, PassStart(s));
    FoldDownloads(c, s.processed, arts, PassStart(s));
  }

  /**
   * The ids first met on a stalled pass are not merged: the next pass over
   * the same tweets handles them again and downloads their images again.
   */
  lemma StalledPassRepeats(c: ScanConfig, s: ScanState, arts: seq<Article>)
    requires arts != [] && Stalls(s, arts)
    ensures var r := Pass(c, s, arts);
            && Stalls(r, arts)
            && HandledIds(r.processed, arts) == HandledIds(s.processed, arts)
            && PassImages(c, r.processed, arts) == PassImages(c, s.processed, arts)
  {
    PassEffect(c, s, arts);
  }

  /** After a pass that is not stalled, the same tweets again are all skipped: the next pass over them stalls and downloads nothing. */
  lemma MergedPassDedups(c: ScanConfig, s: ScanState, arts: seq<Article>)
    requires arts != [] && !Stalls(s, arts)
    ensures var r := Pass(c, s, arts);
            && Stalls(r, arts)
            && HandledIds(r.processed, arts) == {}
            && PassImages(c, r.processed, arts) == 0
  {
    var r := Pass(c, s, arts);
    PassEffect(c, s, arts);
    forall i | 0 <= i < |arts| ensures !Handled(r.processed, arts[i]) {
      if Handled(s.processed, arts[i]) {
        HandledIdsSpec(s.processed, arts, ArticleId(arts[i]));
      }
    }
    NothingHandled(c, r.processed, arts);
  }

  /**
   * The processed-id check only looks at earlier passes: a tweet shown twice
   * in one pass is handled twice and its images are downloaded twice.
   */
  lemma RepeatWithinPass(c: ScanConfig, processed: set<string>, a: Article, acc: PassAcc)
    requires Handled(processed, a)
    ensures var once := ArticleStep(c, processed, a, acc).downloads[|acc.downloads|..];
            Fold(c, processed, [a, a], acc).downloads == acc.downloads + once + once
  {
    var acc1 := ArticleStep(c, processed, a, acc);
    assert [a, a][..1] == [a];
    assert [a][..0] == [];
    assert Fold(c, processed, [a], acc) == ArticleStep(c, processed, a, Fold(c, processed, [], acc));
    assert Fold(c, processed, [a], acc) == acc1;
    assert Fold(c, processed, [a, a], acc) == ArticleStep(c, processed, a, acc1);
    var once := acc1.downloads[|acc.downloads|..];
    assert acc1.downloads == acc.downloads + once;
    assert acc1.authorName == (if a.userName.Some? then NormaliseName(a.userName.value) else acc.authorName);
    assert ArticleStep(c, processed, a, acc1).downloads == acc1.downloads + once;
  }

  // ---------------------------------------------------------------------
  // The whole scan

  /** An upper bound on the passes left. */
  function Budget(feed: seq<seq<Article>>, s: ScanState): nat
    requires ScanInv(s)
  {
    Unsettled(feed, s) + (if Unsettled(feed, s) == 0 then StallsLeft(feed, s) else DuplicateThreshold + 1)
  }

  /** The scan ends only when the duplicate count reaches the threshold or the page shows no tweets. */
  lemma {:induction false} ScanExit(c: ScanConfig, feed: seq<seq<Article>>, s: ScanState)
    requires ScanInv(s)
    ensures var r := ScanFrom(c, feed, s);
            r.duplicates == DuplicateThreshold || Snapshot(feed, r.passes) == []
    decreases Unsettled(feed, s), StallsLeft(feed, s)
  {
    if s.duplicates < DuplicateThreshold && Snapshot(feed, s.passes) != [] {
      PassDecreases(c, feed, s);
      ScanExit(c, feed, Pass(c, s, Snapshot(feed, s.passes)));
    }
  }

  /** Processed ids only grow, earlier downloads are kept, and the scan ends within its budget of passes. */
  lemma {:induction false} ScanGrows(c: ScanConfig, feed: seq<seq<Article>>, s: ScanState)
    requires ScanInv(s)
    ensures var r := ScanFrom(c, feed, s);
            && s.processed <= r.processed
            && |s.downloads| <= |r.downloads| && r.downloads[..|s.downloads|] == s.downloads
            && s.passes <= r.passes <= s.passes + Budget(feed, s)
    decreases Unsettled(feed, s), StallsLeft(feed, s)
  {
    if s.duplicates < DuplicateThreshold && Snapshot(feed, s.passes) != [] {
      var arts := Snapshot(feed, s.passes);
      var s' := Pass(c, s, arts);
      PassDecreases(c, feed, s);
      PassEffect(c, s, arts);
      ScanGrows(c, feed, s');
      var r := ScanFrom(c, feed, s);
      assert r.downloads[..|s'.downloads|][..|s.downloads|] == r.downloads[..|s.downloads|];
    }
  }

  /** A scan of a feed of `n` snapshots makes at most `n + 3` passes. */
  lemma ScanPasses(c: ScanConfig, feed: seq<seq<Article>>)
    ensures ScanFrom(c, feed, InitialScan).passes <= |feed| + DuplicateThreshold
  {
    ScanGrows(c, feed, InitialScan);
  }

  // ---------------------------------------------------------------------
  // The loops of `crawl_author`

  /** The image loop of one tweet: `for idx, img_el in enumerate(images, start=1)`. */
  method DownloadImages(photos: seq<Option<string>>, author: string, dir: string) returns (ds: seq<Download>)
    ensures ds == ImageDownloads(photos, author, dir)
  {
    ds := [];
    var i := 0;
    while i < |photos|
      invariant 0 <= i <= |photos|
      invariant ds == ImageDownloads(photos[..i], author, dir)
    {
      var src := photos[i];
      if src.Some? && src.value != [] {
        ds := ds + [Download(NormaliseImageUrl(src.value), ImagePath(dir, author, i + 1))];
      }
      assert photos[..i + 1][..i] == photos[..i];
      i := i + 1;
    }
    assert photos[..i] == photos;
  }

  /** One iteration of the scan loop: the article loop over one snapshot, then the front-tweet check. */
  method ScanPass(c: ScanConfig, s: ScanState, articles: seq<Article>) returns (s': ScanState)
    requires articles != []
    ensures s' == Pass(c, s, articles)
  {
    var front := ArticleId(articles[0]);
    var current: set<string> := {};
    var name := s.authorName;
    var downloads := s.downloads;
    var i := 0;
    while i < |articles|
      invariant 0 <= i <= |articles|
      invariant PassAcc(current, name, downloads) == Fold(c, s.processed, articles[..i], PassStart(s))
    {
      var a := articles[i];
      assert articles[..i + 1][..i] == articles[..i];
      assert Fold(c, s.processed, articles[..i + 1], PassStart(s))
        == ArticleStep(c, s.processed, a, PassAcc(current, name, downloads));
      var id := ArticleId(a);
      if !a.condensed && id != [] && id !in s.processed {
        current := current + {id};
        if a.userName.Some? {
          name := NormaliseName(a.userName.value);
        }
        if MatchesAnyKeyword(c.keywords, Content(a)) {
          var found := DownloadImages(a.photos, name, c.downloadDir);
          downloads := downloads + found;
        }
      }
      i := i + 1;
    }
    assert articles[..i] == articles;
    if Some(front) == s.lastSeen && !s.isFirst {
      s' := ScanState(s.processed, s.duplicates + 1, s.lastSeen, false, name, downloads, s.passes + 1);
    } else {
      s' := ScanState(s.processed + current, 0, Some(front), false, name, downloads, s.passes + 1);
    }
  }

  /** The scan loop of `crawl_author`, from the first pass to the exit. */
  method Scan(c: ScanConfig, feed: seq<seq<Article>>) returns (s: ScanState)
    ensures s == ScanFrom(c, feed, InitialScan)
  {
    s := InitialScan;
    while s.duplicates < DuplicateThreshold
      invariant ScanInv(s)
      invariant ScanFrom(c, feed, s) == ScanFrom(c, feed, InitialScan)
      decreases Unsettled(feed, s), StallsLeft(feed, s)
    {
      var articles := Snapshot(feed, s.passes);
      if articles == [] {
        break;
      }
      PassDecreases(c, feed, s);
      s := ScanPass(c, s, articles);
    }
  }
}
