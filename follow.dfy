/**
 * `FollowScraper` in follow.py: collect the profile URLs of the accounts a
 * user follows by scrolling the "following" page, appending every URL not
 * seen before, until ten passes in a row add nothing.
 *
 * The page is an input: `feed[k]` is the list of user cells shown on the
 * k-th pass (after k scrolls), and the last snapshot repeats.  A pass whose
 * page shows no user cell stands for the selector wait timing out.
 */
module Follow {
  import opened Options
  import opened Text
  import opened CrawlerText

  /** `max_attempts`: passes in a row without anything new before stopping. */
  const MaxAttempts := 10
  /** The prefix put before a cell's link. */
  const XHost := "https://x.com"

  /**
   * One `button[data-testid="UserCell"]`: the `href` of its first link
   * `a[href^="/"]`, or None when it has no such link or the link has no href.
   */
  datatype UserCell = UserCell(href: Option<string>)

  /** The URL a cell contributes: `https://x.com` followed by a non-empty href. */
  function CellUrl(c: UserCell): (u: Option<string>)
    ensures u.Some? <==> c.href.Some? && c.href.value != []
    ensures u.Some? ==> |u.value| > |XHost| && u.value[..|XHost|] == XHost && u.value[|XHost|..] == c.href.value
  {
    if c.href.Some? && c.href.value != [] then Some(XHost + c.href.value) else None
  }

  /** No URL appears twice. */
  predicate NoDup(s: seq<string>) {
    forall i, j :: 0 <= i < j < |s| ==> s[i] != s[j]
  }

  /** Every URL the cells contribute is already in `followed`. */
  predicate Covered(followed: seq<string>, cells: seq<UserCell>) {
    forall i :: 0 <= i < |cells| && CellUrl(cells[i]).Some? ==> CellUrl(cells[i]).value in followed
  }

  // ---------------------------------------------------------------------
  // One pass over the user cells

  /** `followed_users` after the `for` loop over `cells`: each new URL appended once, in order. */
  function AddPass(followed: seq<string>, cells: seq<UserCell>): seq<string> {
    if cells == [] then followed
    else
      var f := AddPass(followed, cells[..|cells| - 1]);
      var u := CellUrl(cells[|cells| - 1]);
      if u.Some? && u.value !in f then f + [u.value] else f
  }

  /** A pass only appends: what was followed stays, in place. */
  lemma {:induction false} AddPassGrows(followed: seq<string>, cells: seq<UserCell>)
    ensures followed <= AddPass(followed, cells)
  {
    if cells != [] {
      AddPassGrows(followed, cells[..|cells| - 1]);
    }
  }

  /** A pass appends no URL already present, so a list without duplicates keeps none. */
  lemma {:induction false} AddPassNoDup(followed: seq<string>, cells: seq<UserCell>)
    requires NoDup(followed)
    ensures NoDup(AddPass(followed, cells))
  {
    if cells != [] {
      AddPassNoDup(followed, cells[..|cells| - 1]);
    }
  }

  /** Every URL appended comes from a cell of the pass. */
  lemma {:induction false} AddPassSound(followed: seq<string>, cells: seq<UserCell>, k: nat)
    requires |followed| <= k < |AddPass(followed, cells)|
    ensures exists i :: 0 <= i < |cells| && CellUrl(cells[i]) == Some(AddPass(followed, cells)[k])
  {
    var f := AddPass(followed, cells[..|cells| - 1]);
    AddPassGrows(followed, cells[..|cells| - 1]);
    if k < |f| {
      AddPassSound(followed, cells[..|cells| - 1], k);
      var i :| 0 <= i < |cells| - 1 && CellUrl(cells[..|cells| - 1][i]) == Some(f[k]);
      assert cells[..|cells| - 1][i] == cells[i];
    } else {
      assert CellUrl(cells[|cells| - 1]) == Some(AddPass(followed, cells)[k]);
    }
  }

  /** After a pass every URL of its cells is followed. */
  lemma {:induction false} AddPassCovers(followed: seq<string>, cells: seq<UserCell>)
    ensures Covered(AddPass(followed, cells), cells)
  {
    if cells != [] {
      var init := cells[..|cells| - 1];
      AddPassCovers(followed, init);
      var f := AddPass(followed, init);
      forall i | 0 <= i < |cells| && CellUrl(cells[i]).Some?
        ensures CellUrl(cells[i]).value in AddPass(followed, cells)
      {
        if i < |cells| - 1 {
          assert init[i] == cells[i];
          assert f <= AddPass(followed, cells);
        }
      }
    }
  }

  /** A pass over cells whose URLs are all followed appends nothing. */
  lemma {:induction false} AddPassCovered(followed: seq<string>, cells: seq<UserCell>)
    requires Covered(followed, cells)
    ensures AddPass(followed, cells) == followed
  {
    if cells != [] {
      var init := cells[..|cells| - 1];
      forall i | 0 <= i < |init| && CellUrl(init[i]).Some?
        ensures CellUrl(init[i]).value in followed
      {
        assert init[i] == cells[i];
      }
      AddPassCovered(followed, init);
    }
  }

  /** A pass adds nothing exactly when every URL of its cells is already followed. */
  lemma AddPassNothingNew(followed: seq<string>, cells: seq<UserCell>)
    ensures |AddPass(followed, cells)| == |followed| <==> Covered(followed, cells)
  {
    AddPassGrows(followed, cells);
    AddPassCovers(followed, cells);
    if Covered(followed, cells) {
      AddPassCovered(followed, cells);
    }
  }

  // ---------------------------------------------------------------------
  // The scroll loop

  /** The variables of the `while True` loop, plus the number of passes made. */
  datatype FollowState = FollowState(followed: seq<string>, same: nat, passes: nat)

  /** How the loop ends: ten passes in a row without anything new, or a wait that timed out. */
  datatype FollowEnd = Settled(state: FollowState) | TimedOut(state: FollowState)

  /** What the page shows on pass `k`: the last snapshot repeats; no snapshots means no cells. */
  function Cells(feed: seq<seq<UserCell>>, k: nat): seq<UserCell> {
    if feed == [] then []
    else if k < |feed| then feed[k]
    else feed[|feed| - 1]
  }

  /** One pass: append the new URLs, and count it as a pass without news or reset the count. */
  function FollowPass(feed: seq<seq<UserCell>>, s: FollowState): FollowState {
    var f := AddPass(s.followed, Cells(feed, s.passes));
    FollowState(f, if |f| == |s.followed| then s.same + 1 else 0, s.passes + 1)
  }

  /** Passes left before the snapshots stop changing. */
  function Unsettled(feed: seq<seq<UserCell>>, s: FollowState): nat {
    if s.passes + 1 < |feed| then |feed| - 1 - s.passes else 0
  }

  /** Once the page is fixed: passes left before stopping if nothing new shows, else one more. */
  function Pending(feed: seq<seq<UserCell>>, s: FollowState): nat {
    if !Covered(s.followed, Cells(feed, s.passes)) then MaxAttempts + 1
    else if s.same < MaxAttempts then MaxAttempts - s.same
    else 0
  }

  /** The loop, from state `s`, to its end. */
  function FollowFrom(feed: seq<seq<UserCell>>, s: FollowState): FollowEnd
    decreases Unsettled(feed, s), Pending(feed, s)
  {
    if s.same >= MaxAttempts then Settled(s)
    else if Cells(feed, s.passes) == [] then TimedOut(s)
    else
      FollowPassDecreases(feed, s);
      FollowFrom(feed, FollowPass(feed, s))
  }

  /** Each pass brings the loop closer to its end. */
  lemma FollowPassDecreases(feed: seq<seq<UserCell>>, s: FollowState)
    requires s.same < MaxAttempts
    ensures var t := FollowPass(feed, s);
            Unsettled(feed, t) < Unsettled(feed, s)
            || (Unsettled(feed, t) == Unsettled(feed, s) && Pending(feed, t) < Pending(feed, s))
  {
    var t := FollowPass(feed, s);
    if Unsettled(feed, s) == 0 {
      assert Cells(feed, t.passes) == Cells(feed, s.passes);
      AddPassNothingNew(s.followed, Cells(feed, s.passes));
      AddPassCovers(s.followed, Cells(feed, s.passes));
    }
  }

  /**
   * From a state without duplicates, the loop ends with no duplicates, the
   * earlier URLs still in place, and, when it settles, exactly ten passes
   * in a row without anything new; when it times out, the page showed no
   * user cell.
   */
  lemma {:induction false} FollowFromSpec(feed: seq<seq<UserCell>>, s: FollowState)
    requires NoDup(s.followed) && s.same <= MaxAttempts
    ensures var r := FollowFrom(feed, s);
            && s.followed <= r.state.followed
            && NoDup(r.state.followed)
            && s.passes <= r.state.passes
            && (r.Settled? ==> r.state.same == MaxAttempts)
            && (r.TimedOut? ==> Cells(feed, r.state.passes) == [] && r.state.same < MaxAttempts)
    decreases Unsettled(feed, s), Pending(feed, s)
  {
    if s.same < MaxAttempts && Cells(feed, s.passes) != [] {
      var t := FollowPass(feed, s);
      AddPassGrows(s.followed, Cells(feed, s.passes));
      AddPassNoDup(s.followed, Cells(feed, s.passes));
      FollowPassDecreases(feed, s);
      FollowFromSpec(feed, t);
    }
  }

  /** When the loop settles, the URLs of the page it last read are all followed. */
  lemma {:induction false} FollowFromCovers(feed: seq<seq<UserCell>>, s: FollowState)
    requires s.same < MaxAttempts
    requires FollowFrom(feed, s).Settled?
    ensures var r := FollowFrom(feed, s).state;
            r.passes > s.passes && Covered(r.followed, Cells(feed, r.passes - 1))
    decreases Unsettled(feed, s), Pending(feed, s)
  {
    var t := FollowPass(feed, s);
    FollowPassDecreases(feed, s);
    if t.same < MaxAttempts {
      FollowFromCovers(feed, t);
    } else {
      AddPassCovers(s.followed, Cells(feed, s.passes));
    }
  }

  // ---------------------------------------------------------------------
  // The scraper

  /** The 0-based session index of a user number (1 when absent). */
  function UserIndex(userNumber: Option<int>): int {
    (if userNumber.None? then 1 else userNumber.value) - 1
  }

  /**
   * The session file of a user number is one the crawler picks up exactly
   * when the number is absent or at least 1; absent means the first session.
   */
  lemma UserStoragePath(userNumber: Option<int>)
    ensures IsStorageName(StorageFileName(UserIndex(userNumber))) <==> userNumber.None? || userNumber.value >= 1
    ensures userNumber.None? ==> UserIndex(userNumber) == 0
  {
    StorageFileNameMatches(UserIndex(userNumber));
  }

  class FollowScraper {
    /** `storage_path`. */
    const storagePath: string
    /** `followed_users`. */
    var followedUsers: seq<string>

    /** `__init__`: the session file of the user number, and no URL yet. */
    constructor (userNumber: Option<int>)
      ensures storagePath == StorageDir + StorageFileName(UserIndex(userNumber))
      ensures followedUsers == []
    {
      storagePath := StorageDir + StorageFileName(UserIndex(userNumber));
      followedUsers := [];
    }

    /** The `for` loop over the user cells of one pass; returns `new_count`. */
    method CollectPass(cells: seq<UserCell>) returns (newCount: nat)
      modifies this
      ensures followedUsers == AddPass(old(followedUsers), cells)
      ensures newCount == |followedUsers| - |old(followedUsers)|
    {
      newCount := 0;
      for i := 0 to |cells|
        invariant followedUsers == AddPass(old(followedUsers), cells[..i])
        invariant newCount + |old(followedUsers)| == |followedUsers|
      {
        assert cells[..i + 1][..i] == cells[..i];
        var url := CellUrl(cells[i]);
        if url.Some? && url.value !in followedUsers {
          followedUsers := followedUsers + [url.value];
          newCount := newCount + 1;
        }
      }
      assert cells[..|cells|] == cells;
    }

    /**
     * `extract_followed_users`: pass after pass, append the new URLs, until
     * ten passes in a row add nothing; `ok` is false when a pass finds no
     * user cell (the wait raises).
     */
    method ExtractFollowedUsers(feed: seq<seq<UserCell>>) returns (ok: bool, users: seq<string>)
      modifies this
      ensures var r := FollowFrom(feed, FollowState(old(followedUsers), 0, 0));
              ok == r.Settled? && followedUsers == r.state.followed
      ensures ok ==> users == followedUsers
    {
      var same: nat := 0;
      var passes: nat := 0;
      while same < MaxAttempts
        invariant FollowFrom(feed, FollowState(followedUsers, same, passes))
                  == FollowFrom(feed, FollowState(old(followedUsers), 0, 0))
        decreases Unsettled(feed, FollowState(followedUsers, same, passes)),
                  Pending(feed, FollowState(followedUsers, same, passes))
      {
        var s := FollowState(followedUsers, same, passes);
        var cells := Cells(feed, passes);
        if cells == [] {
          return false, [];
        }
        FollowPassDecreases(feed, s);
        var newCount := CollectPass(cells);
        if newCount == 0 {
          same := same + 1;
        } else {
          same := 0;
        }
        passes := passes + 1;
        assert FollowState(followedUsers, same, passes) == FollowPass(feed, s);
      }
      return true, followedUsers;
    }
  }
}
