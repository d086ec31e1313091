/**
 * The notification controller: the list query (the requesting user's notifications, newest
 * first, optionally only unread ones, at most `limit`, plus a global unread count), marking
 * one notification read, and marking all of them read.
 */
module NotificationController {

  import opened Common
  import opened Strings

  type Timestamp = int

  /** A stored database notification. */
  datatype Notification = Notification(id: string, owner: nat, createdAt: Timestamp, readAt: Option<Timestamp>, data: string)

  // ---------------------------------------------------------------------------
  // index

  /** filter_var($v, FILTER_VALIDATE_BOOLEAN) without flags: "1", "true", "on", "yes", any case, trimmed. */
  predicate FilterValidateBoolean(v: string) {
    AsciiLower(TrimEnd(TrimStart(v, FilterWhitespace), FilterWhitespace)) in {"1", "true", "on", "yes"}
  }

  /** The whitespace filter_var strips: space, tab, CR, LF, vertical tab. */
  const FilterWhitespace: set<char> := {' ', '\t', '\r', '\n', 11 as char}

  /** The query string of index: `limit`, already cast with (int), and `unread`, each possibly missing. */
  datatype ListQuery = ListQuery(limit: Option<int>, unread: Option<string>)

  /** The `unread` query parameter; missing means false. */
  predicate OnlyUnread(query: Option<string>) {
    query.Some? && FilterValidateBoolean(query.value)
  }

  /** The `limit` query parameter; missing means 20. */
  function Limit(query: Option<int>): int {
    query.GetOr(20)
  }

  /** `unread` values that ask for unread notifications only. */
  lemma UnreadFlagsAccepted()
    ensures OnlyUnread(Some("1")) && OnlyUnread(Some("true")) && OnlyUnread(Some("ON"))
  {
    BareWord("1");
    assert AsciiLower("1") == "1";
    BareWord("true");
    assert AsciiLower("true") == "true";
    BareWord("ON");
    assert AsciiLower("ON") == "on";
  }

  /** `unread` values, and its absence, that keep read notifications in the list. */
  lemma UnreadFlagsRejected()
    ensures !OnlyUnread(None) && !OnlyUnread(Some("0")) && !OnlyUnread(Some("false")) && !OnlyUnread(Some(""))
  {
    BareWord("0");
    assert AsciiLower("0") == "0";
    BareWord("false");
    assert AsciiLower("false") == "false";
    BareWord("");
    assert AsciiLower("") == "";
  }

  /** A word without surrounding whitespace is what filter_var compares. */
  lemma BareWord(w: string)
    requires forall i :: 0 <= i < |w| ==> w[i] !in FilterWhitespace
    ensures TrimEnd(TrimStart(w, FilterWhitespace), FilterWhitespace) == w
  {
  }

  /** The query's where-clauses: the user's notifications, and only unread ones when asked. */
  predicate Selected(n: Notification, uid: nat, onlyUnread: bool) {
    n.owner == uid && (onlyUnread ==> n.readAt.None?)
  }

  /** The selected notifications in table order. */
  function Select(rows: seq<Notification>, uid: nat, onlyUnread: bool): (r: seq<Notification>)
    ensures forall n :: n in r <==> n in rows && Selected(n, uid, onlyUnread)
    ensures multiset(r) <= multiset(rows)
    ensures |r| <= |rows|
    decreases |rows|
  {
    if rows == [] then []
    else
      var rest := Select(rows[1..], uid, onlyUnread);
      assert rows == [rows[0]] + rows[1..];
      if Selected(rows[0], uid, onlyUnread) then [rows[0]] + rest else rest
  }

  /** Newest first: created_at never increases along the sequence. */
  ghost predicate NewestFirst(s: seq<Notification>) {
    forall i, j :: 0 <= i < j < |s| ==> s[i].createdAt >= s[j].createdAt
  }

  /** In a newest-first sequence nothing after the head is newer than the head. */
  lemma HeadIsNewest(s: seq<Notification>)
    requires NewestFirst(s) && s != []
    ensures forall m :: m in s[1..] ==> m.createdAt <= s[0].createdAt
  {
    forall m | m in s[1..] ensures m.createdAt <= s[0].createdAt {
      var i :| 0 <= i < |s[1..]| && s[1..][i] == m;
      assert s[i + 1] == m;
    }
  }

  /** Putting an element in front of a newest-first sequence of no newer elements keeps it newest-first. */
  lemma ConsNewestFirst(x: Notification, t: seq<Notification>)
    requires NewestFirst(t)
    requires forall m :: m in t ==> m.createdAt <= x.createdAt
    ensures NewestFirst([x] + t)
  {
    var r := [x] + t;
    forall i, j | 0 <= i < j < |r| ensures r[i].createdAt >= r[j].createdAt {
      if i == 0 { assert r[j] == t[j - 1]; assert r[j] in t; } else { assert r[i] == t[i - 1] && r[j] == t[j - 1]; }
    }
  }

  /** Inserts n into a newest-first sequence, before the first element not newer than it. */
  function Insert(n: Notification, s: seq<Notification>): (r: seq<Notification>)
    requires NewestFirst(s)
    ensures NewestFirst(r)
    ensures multiset(r) == multiset(s) + multiset{n}
    decreases |s|
  {
    if s == [] || s[0].createdAt <= n.createdAt then
      InsertAtHead(n, s);
      [n] + s
    else
      InsertBehindHead(n, s);
      [s[0]] + Insert(n, s[1..])
  }

  /** The first case of Insert: n is at least as new as the head. */
  lemma InsertAtHead(n: Notification, s: seq<Notification>)
    requires NewestFirst(s)
    requires s == [] || s[0].createdAt <= n.createdAt
    ensures NewestFirst([n] + s)
  {
    if s != [] {
      HeadIsNewest(s);
      assert s == [s[0]] + s[1..];
    }
    ConsNewestFirst(n, s);
  }

  /** The second case of Insert: the head stays in front of the insertion into the tail. */
  lemma InsertBehindHead(n: Notification, s: seq<Notification>)
    requires NewestFirst(s) && s != [] && s[0].createdAt > n.createdAt
    ensures NewestFirst(s[1..])
    ensures NewestFirst([s[0]] + Insert(n, s[1..]))
    ensures multiset([s[0]] + Insert(n, s[1..])) == multiset(s) + multiset{n}
    decreases |s|, 0
  {
    assert NewestFirst(s[1..]) by {
      forall i, j | 0 <= i < j < |s[1..]| ensures s[1..][i].createdAt >= s[1..][j].createdAt {
        assert s[1..][i] == s[i + 1] && s[1..][j] == s[j + 1];
      }
    }
    var rest := Insert(n, s[1..]);
    assert s == [s[0]] + s[1..];
    HeadIsNewest(s);
    forall m | m in rest ensures m.createdAt <= s[0].createdAt {
      assert m in multiset(rest);
      if m != n { assert m in multiset(s[1..]); }
    }
    ConsNewestFirst(s[0], rest);
  }

  /** orderByDesc('created_at'): a newest-first permutation (insertion sort). */
  function SortNewestFirst(s: seq<Notification>): (r: seq<Notification>)
    ensures NewestFirst(r)
    ensures multiset(r) == multiset(s)
    decreases |s|
  {
    if s == [] then []
    else
      assert s == [s[0]] + s[1..];
      Insert(s[0], SortNewestFirst(s[1..]))
  }

  /** limit($n): a negative limit is ignored by the query builder; otherwise at most n rows. */
  function Take(s: seq<Notification>, limit: int): (r: seq<Notification>)
    ensures limit < 0 ==> r == s
    ensures limit >= 0 ==> |r| == if limit < |s| then limit else |s|
    ensures r == s[..|r|]
  {
    if limit < 0 || limit >= |s| then s else s[..limit]
  }

  /** A prefix of a newest-first sequence is newest-first and a sub-multiset. */
  lemma PrefixFacts(s: seq<Notification>, k: nat)
    requires k <= |s|
    ensures NewestFirst(s) ==> NewestFirst(s[..k])
    ensures multiset(s[..k]) <= multiset(s)
    ensures forall n :: n in s[..k] ==> n in multiset(s)
  {
    assert s == s[..k] + s[k..];
    assert multiset(s) == multiset(s[..k]) + multiset(s[k..]);
  }

  /** The JSON body of index. */
  datatype Page = Page(data: seq<Notification>, unreadCount: nat)

  /** The user's unread notifications, counted over the whole table. */
  function UnreadCount(rows: seq<Notification>, uid: nat): nat {
    |Select(rows, uid, true)|
  }

  /**
   * index: select, sort newest first, take `limit` (default 20) and count all unread. The
   * page is the min(limit, selected) newest selected notifications: nothing left out is
   * newer than anything on the page.
   */
  function Index(rows: seq<Notification>, uid: nat, query: ListQuery): (p: Page)
    ensures var limit := Limit(query.limit);
      var selected := Select(rows, uid, OnlyUnread(query.unread));
      && (limit >= 0 ==> |p.data| == if limit < |selected| then limit else |selected|)
      && NewestFirst(p.data)
      && multiset(p.data) <= multiset(selected)
      && ((limit < 0 || |selected| <= limit) ==> multiset(p.data) == multiset(selected))
      && (forall n, m :: n in p.data && m in multiset(selected) - multiset(p.data) ==> m.createdAt <= n.createdAt)
    ensures forall n :: n in p.data ==> n in rows && n.owner == uid
    ensures OnlyUnread(query.unread) ==> forall n :: n in p.data ==> n.readAt.None?
    ensures p.unreadCount == UnreadCount(rows, uid)
  {
    var selected := Select(rows, uid, OnlyUnread(query.unread));
    var items := Take(SortNewestFirst(selected), Limit(query.limit));
    PageFacts(selected, Limit(query.limit));
    forall n | n in items ensures n in selected {
      assert n in multiset(items);
    }
    Page(items, UnreadCount(rows, uid))
  }

  /**
   * Sorting then taking `limit`: min(limit, |selected|) items, newest first, a sub-multiset,
   * all of it when under the limit, and none of the items left out newer than one taken.
   */
  lemma PageFacts(selected: seq<Notification>, limit: int)
    ensures var items := Take(SortNewestFirst(selected), limit);
      && (limit >= 0 ==> |items| == if limit < |selected| then limit else |selected|)
      && NewestFirst(items)
      && multiset(items) <= multiset(selected)
      && ((limit < 0 || |selected| <= limit) ==> multiset(items) == multiset(selected))
      && (forall n, m :: n in items && m in multiset(selected) - multiset(items) ==> m.createdAt <= n.createdAt)
  {
    var sorted := SortNewestFirst(selected);
    var j := |Take(sorted, limit)|;
    PrefixFacts(sorted, j);
    PrefixIsNewest(sorted, j);
    assert |multiset(selected)| == |selected|;
  }

  /** What a prefix of a newest-first sequence leaves out is no newer than what it keeps. */
  lemma PrefixIsNewest(s: seq<Notification>, j: nat)
    requires NewestFirst(s) && j <= |s|
    ensures forall n, m :: n in s[..j] && m in multiset(s) - multiset(s[..j]) ==> m.createdAt <= n.createdAt
  {
    assert s == s[..j] + s[j..];
    assert multiset(s) - multiset(s[..j]) == multiset(s[j..]);
    forall n, m | n in s[..j] && m in multiset(s) - multiset(s[..j]) ensures m.createdAt <= n.createdAt {
      var p :| 0 <= p < j && s[p] == n;
      assert m in s[j..];
      var q :| j <= q < |s| && s[q] == m;
    }
  }

  /** Without a `limit` in the query the page holds the 20 newest (or all, when fewer). */
  lemma DefaultPageSize(rows: seq<Notification>, uid: nat, unread: Option<string>)
    ensures var selected := Select(rows, uid, OnlyUnread(unread));
      |Index(rows, uid, ListQuery(None, unread)).data| == if |selected| < 20 then |selected| else 20
  {
  }

  /** The unread count does not depend on the limit or on the unread filter of the list. */
  lemma UnreadCountIndependent(rows: seq<Notification>, uid: nat, query1: ListQuery, query2: ListQuery)
    ensures Index(rows, uid, query1).unreadCount == Index(rows, uid, query2).unreadCount
  {
  }

  // ---------------------------------------------------------------------------
  // markRead / markAllRead

  /** Notification ids are unique (they are UUID primary keys). */
  ghost predicate UniqueIds(rows: seq<Notification>) {
    forall i, j :: 0 <= i < j < |rows| ==> rows[i].id != rows[j].id
  }

  /** The position of the user's notification with this id, if any. */
  function FindOwned(rows: seq<Notification>, uid: nat, id: string): (r: Option<nat>)
    ensures r.Some? ==> r.value < |rows| && rows[r.value].owner == uid && rows[r.value].id == id
    ensures r.None? <==> forall j :: 0 <= j < |rows| ==> !(rows[j].owner == uid && rows[j].id == id)
    decreases |rows|
  {
    if rows == [] then None
    else if rows[0].owner == uid && rows[0].id == id then Some(0)
    else match FindOwned(rows[1..], uid, id)
      case None => None
      case Some(k) => Some(k + 1)
  }

  /** markAsRead(): set read_at to now unless it is already set. */
  function MarkedRead(n: Notification, now: Timestamp): (m: Notification)
    ensures m.readAt.Some?
    ensures m == n.(readAt := m.readAt)
    ensures m.readAt == if n.readAt.Some? then n.readAt else Some(now)
  {
    if n.readAt.None? then n.(readAt := Some(now)) else n
  }

  /** Marking a notification read twice is the same as marking it once. */
  lemma MarkedReadIdempotent(n: Notification, now: Timestamp, later: Timestamp)
    ensures MarkedRead(MarkedRead(n, now), later) == MarkedRead(n, now)
  {
  }

  /**
   * The table after mark-all-read for uid: every notification of the user is read, the
   * unread ones at `now`; other users' notifications and ones already read are unchanged,
   * and nothing but read_at changes.
   */
  function AllMarkedRead(rows: seq<Notification>, uid: nat, now: Timestamp): (r: seq<Notification>)
    ensures |r| == |rows|
    ensures forall k :: 0 <= k < |rows| ==> r[k] == rows[k].(readAt := r[k].readAt)
    ensures forall k :: 0 <= k < |rows| && rows[k].owner == uid ==> r[k].readAt.Some?
    ensures forall k :: 0 <= k < |rows| && rows[k].owner == uid && rows[k].readAt.None? ==> r[k].readAt == Some(now)
    ensures forall k :: 0 <= k < |rows| && (rows[k].owner != uid || rows[k].readAt.Some?) ==> r[k] == rows[k]
  {
    seq(|rows|, k requires 0 <= k < |rows| => if rows[k].owner == uid then MarkedRead(rows[k], now) else rows[k])
  }

  /** After mark-all-read the user has no unread notification left. */
  lemma {:induction false} NoUnreadAfterMarkAll(rows: seq<Notification>, uid: nat, now: Timestamp)
    ensures UnreadCount(AllMarkedRead(rows, uid, now), uid) == 0
  {
    var r := AllMarkedRead(rows, uid, now);
    if Select(r, uid, true) != [] {
      var n := Select(r, uid, true)[0];
      assert n in Select(r, uid, true);
      assert n in r;
    }
  }

  /** Marking one of the user's unread notifications read lowers the unread count by one. */
  lemma {:induction false} MarkOneLowersUnreadCount(rows: seq<Notification>, uid: nat, k: nat, now: Timestamp)
    requires k < |rows| && rows[k].owner == uid && rows[k].readAt.None?
    ensures UnreadCount(rows[k := MarkedRead(rows[k], now)], uid) == UnreadCount(rows, uid) - 1
    decreases |rows|
  {
    var updated := rows[k := MarkedRead(rows[k], now)];
    if k == 0 {
      assert updated[1..] == rows[1..];
      assert Select(updated, uid, true) == Select(updated[1..], uid, true);
    } else {
      assert updated[1..] == rows[1..][k - 1 := MarkedRead(rows[k], now)];
      MarkOneLowersUnreadCount(rows[1..], uid, k - 1, now);
      assert updated[0] == rows[0];
    }
  }

  /** The JSON body of markRead and markAllRead. */
  datatype Ack = Ack(message: string)

  /** The notifications table. */
  class NotificationTable {
    var rows: seq<Notification>

    ghost predicate Valid()
      reads this
    {
      UniqueIds(rows)
    }

    constructor (initial: seq<Notification>)
      requires UniqueIds(initial)
      ensures Valid() && rows == initial
    {
      rows := initial;
    }

    /**
     * markRead: 404 when the user has no notification with this id; otherwise read_at is set
     * if it was null, and no other notification changes.
     */
    method MarkRead(uid: nat, id: string, now: Timestamp) returns (r: Response<Ack>)
      requires Valid()
      modifies this
      ensures Valid()
      ensures match FindOwned(old(rows), uid, id)
        case None => r == Json(StatusNotFound, Ack("Not found")) && rows == old(rows)
        case Some(k) =>
          && r == Json(StatusOk, Ack("ok"))
          && rows == old(rows)[k := MarkedRead(old(rows)[k], now)]
    {
      var found := FindOwned(rows, uid, id);
      if found.None? {
        return Json(StatusNotFound, Ack("Not found"));
      }
      var k := found.value;
      if rows[k].readAt.None? {
        rows := rows[k := rows[k].(readAt := Some(now))];
      }
      r := Json(StatusOk, Ack("ok"));
    }

    /** markAllRead: each of the user's unread notifications is marked read in turn. */
    method MarkAllRead(uid: nat, now: Timestamp) returns (r: Response<Ack>)
      requires Valid()
      modifies this
      ensures Valid()
      ensures rows == AllMarkedRead(old(rows), uid, now)
      ensures r == Json(StatusOk, Ack("ok"))
    {
      var i := 0;
      while i < |rows|
        invariant 0 <= i <= |rows| == |old(rows)|
        invariant forall k :: 0 <= k < i ==> rows[k] == AllMarkedRead(old(rows), uid, now)[k]
        invariant forall k :: i <= k < |rows| ==> rows[k] == old(rows)[k]
      {
        if rows[i].owner == uid && rows[i].readAt.None? {
          rows := rows[i := rows[i].(readAt := Some(now))];
        }
        i := i + 1;
      }
      r := Json(StatusOk, Ack("ok"));
    }
  }
}
