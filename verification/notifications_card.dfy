/**
 * The dashboard's "Recent Notifications" card: the user's five newest notifications, kept
 * up to date by prepending each newly inserted one and dropping the oldest beyond five.
 */
module NotificationsCard {
  import opened Wrappers
  import Seqs

  datatype Notification = Notification(id: string, userId: string, title: string, message: string, createdAt: int)

  /** How many notifications the card shows. */
  const Limit: nat := 5

  function Min(a: int, b: int): int { if a <= b then a else b }

  /**
   * The insert handler: the new notification goes first, followed by the previous ones
   * in order, cut to the limit.
   */
  function Push(current: seq<Notification>, n: Notification): (r: seq<Notification>)
    ensures |r| == Min(Limit, |current| + 1)
    ensures r[0] == n
    ensures r[1..] == current[..Min(Limit - 1, |current|)]
  {
    var all := [n] + current;
    assert all[1..] == current;
    all[..Min(Limit, |all|)]
  }

  /** The card never shows more than the limit, whatever arrives. */
  lemma PushBounded(current: seq<Notification>, n: Notification)
    ensures |Push(current, n)| <= Limit
  {
  }

  /** Notifications arriving one after another, oldest arrival first. */
  function PushAll(current: seq<Notification>, arrivals: seq<Notification>): (r: seq<Notification>)
    ensures arrivals != [] ==> 0 < |r| <= Limit && r[0] == arrivals[|arrivals| - 1]
    ensures arrivals == [] ==> r == current
    decreases |arrivals|
  {
    if arrivals == [] then current
    else Push(PushAll(current, arrivals[..|arrivals| - 1]), arrivals[|arrivals| - 1])
  }

  function Reverse<T>(s: seq<T>): (r: seq<T>)
    ensures |r| == |s|
    ensures forall i :: 0 <= i < |s| ==> r[i] == s[|s| - 1 - i]
  {
    if s == [] then [] else [s[|s| - 1]] + Reverse(s[..|s| - 1])
  }

  /**
   * After any run of arrivals the card shows the newest `Limit` of everything: the
   * arrivals newest first, then what was shown before.
   */
  lemma {:induction false} PushAllShowsNewest(current: seq<Notification>, arrivals: seq<Notification>)
    requires |current| <= Limit
    ensures PushAll(current, arrivals) == (Reverse(arrivals) + current)[..Min(Limit, |arrivals| + |current|)]
    decreases |arrivals|
  {
    if arrivals == [] {
      assert Reverse(arrivals) + current == current;
    } else {
      var init, x := arrivals[..|arrivals| - 1], arrivals[|arrivals| - 1];
      PushAllShowsNewest(current, init);
      var before := PushAll(current, init);
      var all := Reverse(arrivals) + current;
      assert Reverse(arrivals) == [x] + Reverse(init);
      var n := Min(Limit, |arrivals| + |current|);
      assert Push(before, x) == all[..n] by {
        assert |Push(before, x)| == n;
        forall i | 0 <= i < n
          ensures Push(before, x)[i] == all[i]
        {
          if i > 0 {
            assert Push(before, x)[i] == Push(before, x)[1..][i - 1];
          }
        }
      }
    }
  }

  function Mine(user: string): Notification -> bool
  {
    (n: Notification) => n.userId == user
  }

  /**
   * The first fetch: the user's notifications from a list ordered newest first, at most
   * `Limit` of them, in the list's order. They are the front of the user's list, so none of
   * theirs is skipped in favour of an older one, and one is left out only when the card is
   * full.
   */
  function Latest(all: seq<Notification>, user: string): (r: seq<Notification>)
    ensures |r| <= Limit
    ensures Seqs.IsSubsequence(r, all)
    ensures forall n :: n in r ==> n.userId == user
    ensures |r| <= |Seqs.Filter(all, Mine(user))| && r == Seqs.Filter(all, Mine(user))[..|r|]
    ensures forall n :: n in all && n.userId == user && n !in r ==> |r| == Limit
  {
    var mine := Seqs.Filter(all, Mine(user));
    var k := Min(Limit, |mine|);
    FrontOfMine(all, user, k);
    mine[..k]
  }

  /** The first `k` of the user's notifications, `k` up to the limit, are the card's candidates. */
  lemma FrontOfMine(all: seq<Notification>, user: string, k: nat)
    requires k == Min(Limit, |Seqs.Filter(all, Mine(user))|)
    ensures var front := Seqs.Filter(all, Mine(user))[..k];
      && Seqs.IsSubsequence(front, all)
      && (forall n :: n in front ==> n.userId == user)
      && (forall n :: n in all && n.userId == user && n !in front ==> k == Limit)
  {
    var mine := Seqs.Filter(all, Mine(user));
    Seqs.PrefixIsSubsequence(mine, k);
    Seqs.SubsequenceTransitive(mine[..k], mine, all);
    Seqs.SubsequenceElements(mine[..k], mine);
    forall n | n in all && n.userId == user && n !in mine[..k]
      ensures k == Limit
    {
      Seqs.FilterKeeps(all, Mine(user), n);
    }
  }

  /**
   * When the rows are all different (each notification has its own id), a notification of
   * the user that comes after a shown one in the newest-first list never displaces an
   * earlier one: every newer notification of the user is shown too.
   */
  lemma LatestAreNewest(all: seq<Notification>, user: string)
    requires forall a, b :: 0 <= a < b < |all| ==> all[a] != all[b]
    ensures forall i, j :: 0 <= i < j < |all| && all[i].userId == user && all[j] in Latest(all, user) ==>
      all[i] in Latest(all, user)
  {
    var mine := Seqs.Filter(all, Mine(user));
    var r := Latest(all, user);
    Seqs.FilterDistinct(all, Mine(user));
    forall i, j | 0 <= i < j < |all| && all[i].userId == user && all[j] in r
      ensures all[i] in r
    {
      var q :| 0 <= q < |r| && r[q] == all[j];
      assert mine[q] == all[j];
      Seqs.FilterPrecedes(all, Mine(user), i, j);
      var a, b :| 0 <= a < b < |mine| && mine[a] == all[i] && mine[b] == all[j];
      assert b == q;
      assert r[a] == all[i];
    }
  }

  /**
   * The list after the first fetch: the fetched rows when the query succeeds with data;
   * an error or a missing result leaves the list as it was.
   */
  function AfterInitialFetch(current: seq<Notification>, fetched: Fetch<seq<Notification>>): (r: seq<Notification>)
    ensures fetched.Loaded? && fetched.data.Some? ==> r == fetched.data.value
    ensures !(fetched.Loaded? && fetched.data.Some?) ==> r == current
  {
    match fetched
    case Loaded(Some(rows)) => rows
    case _ => current
  }
}
