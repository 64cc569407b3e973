/**
 * The first half of `crawl_author` in OshinagakiFinder.py: deciding, from
 * what the search page shows after loading, whether the page is a loading
 * error, an empty search result, or a page of tweets worth scanning.
 *
 * The browser is not modelled: a page is given by the facts the code asks
 * of it (is the tweet container there, is the empty-state box there, and
 * which cells have a button, a link, a tweet).
 */
module PageClassifier {

  /** One `div[data-testid="cellInnerDiv"]`: does it hold a button, a link `a[href^="/"]`, a tweet article. */
  datatype Cell = Cell(hasButton: bool, hasLink: bool, hasTweet: bool)

  /** What the loaded search page shows. */
  datatype PageView = PageView(
    container: bool,   // some cellInnerDiv appeared within the wait
    emptyState: bool,  // the emptyState box appeared within its wait
    cells: seq<Cell>)  // the cellInnerDiv cells, in document order

  /** How `crawl_author` reads the page before scanning it. */
  datatype PageState =
    | LoadError    // `return False, 1`
    | EmptyResult  // `return None, []`
    | Loaded       // go on to the scan loop

  /** A cell with neither a link nor a tweet. */
  predicate Bare(c: Cell) {
    !c.hasLink && !c.hasTweet
  }

  /**
   * `check_cell_divs`: the first bare cell decides (no button: fine,
   * a button: loading error); with no bare cell the page is fine.
   */
  function CheckCellDivs(cells: seq<Cell>): bool {
    if cells == [] then true
    else if Bare(cells[0]) then !cells[0].hasButton
    else CheckCellDivs(cells[1..])
  }

  /** `i` is the index of the first bare cell. */
  ghost predicate FirstBare(cells: seq<Cell>, i: int) {
    0 <= i < |cells| && Bare(cells[i]) && forall j :: 0 <= j < i ==> !Bare(cells[j])
  }

  /** `check_cell_divs` is False exactly when the first bare cell has a button. */
  lemma {:induction false} CheckCellDivsFails(cells: seq<Cell>)
    ensures !CheckCellDivs(cells) <==> exists i :: FirstBare(cells, i) && cells[i].hasButton
  {
    if cells != [] {
      if Bare(cells[0]) {
        assert FirstBare(cells, 0);
        forall i | FirstBare(cells, i) ensures i == 0 {
        }
      } else {
        CheckCellDivsFails(cells[1..]);
        if !CheckCellDivs(cells) {
          var i :| FirstBare(cells[1..], i) && cells[1..][i].hasButton;
          assert FirstBare(cells, i + 1);
        } else {
          forall i | FirstBare(cells, i) ensures !cells[i].hasButton {
            assert FirstBare(cells[1..], i - 1);
          }
        }
      }
    }
  }

  /** A page whose cells all hold a link or a tweet passes the check. */
  lemma {:induction false} CheckCellDivsNoBare(cells: seq<Cell>)
    requires forall i :: 0 <= i < |cells| ==> !Bare(cells[i])
    ensures CheckCellDivs(cells)
  {
    if cells != [] {
      assert !Bare(cells[0]);
      CheckCellDivsNoBare(cells[1..]);
    }
  }

  /** The classification at the start of `crawl_author`. */
  function Classify(page: PageView): (s: PageState)
    ensures s == EmptyResult ==> !page.container && page.emptyState
    ensures s == Loaded ==> page.container
  {
    if !page.container then (if page.emptyState then EmptyResult else LoadError)
    else if !CheckCellDivs(page.cells) then LoadError
    else Loaded
  }

  /**
   * The page is a loading error exactly when neither the container nor the
   * empty-state box appears, or when the container appears and its first
   * bare cell holds a button.
   */
  lemma ClassifyLoadError(page: PageView)
    ensures Classify(page) == LoadError <==>
              (!page.container && !page.emptyState)
              || (page.container && exists i :: FirstBare(page.cells, i) && page.cells[i].hasButton)
  {
    CheckCellDivsFails(page.cells);
  }
}
