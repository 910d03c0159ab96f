/** Cursor pagination of the activity log (GetActivity over ListAuditEventsByUser). */
module Pagination {
  import opened Prelude

  /** A row of audit_events. */
  datatype Event = Event(id: nat, user: nat, at: int, kind: nat, ip: Option<nat>, agent: nat)

  /** An entry of the response; an empty user agent (0 here) is left out. */
  datatype ActivityEvent = ActivityEvent(id: nat, eventType: nat, createdAt: int, ip: Option<nat>, userAgent: Option<nat>)

  datatype Response = Response(events: seq<ActivityEvent>, nextCursor: Option<nat>)

  /** auditLimit. */
  function AuditLimit(limit: int): int {
    if limit <= 0 || limit > 100 then 50 else limit
  }

  // ---- The query. ----

  /** The instant of the event a cursor names; None (SQL's NULL) if there is no such event. */
  function InstantOf(log: seq<Event>, id: nat): Option<int> {
    if log == [] then None else if log[0].id == id then Some(log[0].at) else InstantOf(log[1..], id)
  }

  predicate Selected(e: Event, user: nat, before: Option<int>) {
    e.user == user && (before.None? || e.at < before.value)
  }

  function Select(log: seq<Event>, user: nat, before: Option<int>): (r: seq<Event>) {
    if log == [] then []
    else if Selected(log[0], user, before) then [log[0]] + Select(log[1..], user, before)
    else Select(log[1..], user, before)
  }

  function InsertDesc(e: Event, s: seq<Event>): seq<Event> {
    if s == [] || e.at >= s[0].at then [e] + s else [s[0]] + InsertDesc(e, s[1..])
  }

  /** ORDER BY created_at DESC. */
  function SortDesc(s: seq<Event>): seq<Event> {
    if s == [] then [] else InsertDesc(s[0], SortDesc(s[1..]))
  }

  function Take(s: seq<Event>, n: int): seq<Event>
    requires 0 <= n
  {
    if |s| <= n then s else s[..n]
  }

  /** ListAuditEventsByUser; comparing with the instant of a missing cursor event selects nothing. */
  function Query(log: seq<Event>, user: nat, cursor: Option<nat>, limit: int): seq<Event>
    requires 0 <= limit
  {
    match cursor
    case None => Take(SortDesc(Select(log, user, None)), limit)
    case Some(id) =>
      match InstantOf(log, id)
      case None => []
      case Some(t) => Take(SortDesc(Select(log, user, Some(t))), limit)
  }

  /** A page of the response and, if there is more, the cursor for the next one. */
  datatype Page = Page(events: seq<Event>, next: Option<nat>)

  /**
   * GetActivity: one row more than the limit is fetched to see whether there is
   * more. The route in front of it passes on positive limits only.
   */
  function GetActivity(log: seq<Event>, user: nat, cursor: Option<nat>, limit: int): Page
    requires 1 <= limit
  {
    var rows := Query(log, user, cursor, AuditLimit(limit) + 1);
    if |rows| > limit then Page(rows[..limit], Some(rows[limit - 1].id)) else Page(rows, None)
  }

  /** The handler itself: the response lists the page's events, entry by entry, and carries its cursor. */
  method GetActivityHandler(log: seq<Event>, user: nat, cursor: Option<nat>, limit: int) returns (resp: Response)
    requires 1 <= limit
    ensures resp.nextCursor == GetActivity(log, user, cursor, limit).next
    ensures |resp.events| == |GetActivity(log, user, cursor, limit).events|
    ensures forall i :: 0 <= i < |resp.events| ==>
      var ae, e := resp.events[i], GetActivity(log, user, cursor, limit).events[i];
      && ae.id == e.id && ae.eventType == e.kind && ae.createdAt == e.at && ae.ip == e.ip
      && (e.agent == 0 ==> ae.userAgent == None) && (e.agent != 0 ==> ae.userAgent == Some(e.agent))
  {
    var events := Query(log, user, cursor, AuditLimit(limit) + 1);
    var hasMore := |events| > limit;
    if hasMore {
      events := events[..limit];
    }
    resp := Response([], None);
    for i := 0 to |events|
      invariant |resp.events| == i && resp.nextCursor == None
      invariant forall j :: 0 <= j < i ==>
        resp.events[j] == ActivityEvent(events[j].id, events[j].kind, events[j].at, events[j].ip,
                                        if events[j].agent == 0 then None else Some(events[j].agent))
    {
      var ev := events[i];
      var ae := ActivityEvent(ev.id, ev.kind, ev.at, None, None);
      if ev.ip.Some? {
        ae := ae.(ip := Some(ev.ip.value));
      }
      if ev.agent != 0 {
        ae := ae.(userAgent := Some(ev.agent));
      }
      resp := resp.(events := resp.events + [ae]);
    }
    if hasMore && |events| > 0 {
      resp := resp.(nextCursor := Some(events[|events| - 1].id));
    }
  }

  /**
   * The pages a client gets by following the cursors, page i being served from
   * `logs[i]`; it stops at a page without a cursor.
   */
  function Follow(logs: seq<seq<Event>>, user: nat, cursor: Option<nat>, limit: int): seq<seq<Event>>
    requires 1 <= limit
    decreases |logs|
  {
    if logs == [] then []
    else
      var page := GetActivity(logs[0], user, cursor, limit);
      [page.events] + if page.next.None? then [] else Follow(logs[1..], user, page.next, limit)
  }

  function Flatten(pages: seq<seq<Event>>): seq<Event> {
    if pages == [] then [] else pages[0] + Flatten(pages[1..])
  }

  function PagesNeeded(n: int, limit: int): (p: int)
    requires 1 <= limit && 0 <= n
    ensures p >= 1
  {
    if n <= limit then 1 else 1 + PagesNeeded(n - limit, limit)
  }

  // ---- Sorting. ----

  /** Newest first, ties in any order. */
  ghost predicate Ordered(s: seq<Event>) {
    forall i, j :: 0 <= i < j < |s| ==> s[i].at >= s[j].at
  }

  ghost predicate Descending(s: seq<Event>) {
    forall i, j :: 0 <= i < j < |s| ==> s[i].at > s[j].at
  }

  lemma {:induction false} InsertMembers(e: Event, s: seq<Event>, x: Event)
    ensures x in InsertDesc(e, s) <==> x == e || x in s
  {
    if s != [] && e.at < s[0].at {
      InsertMembers(e, s[1..], x);
      assert x in s <==> x == s[0] || x in s[1..];
    }
  }

  lemma {:induction false} SortMembers(s: seq<Event>, x: Event)
    ensures x in SortDesc(s) <==> x in s
  {
    if s != [] {
      SortMembers(s[1..], x);
      InsertMembers(s[0], SortDesc(s[1..]), x);
    }
  }

  lemma {:induction false} SelectMembers(log: seq<Event>, user: nat, before: Option<int>, x: Event)
    ensures x in Select(log, user, before) <==> x in log && Selected(x, user, before)
  {
    if log != [] {
      SelectMembers(log[1..], user, before, x);
    }
  }

  lemma {:induction false} InsertOrdered(e: Event, s: seq<Event>)
    requires Ordered(s)
    ensures Ordered(InsertDesc(e, s)) && |InsertDesc(e, s)| == |s| + 1
  {
    if s != [] && e.at < s[0].at {
      InsertOrdered(e, s[1..]);
      var rest := InsertDesc(e, s[1..]);
      forall i | 0 <= i < |rest| ensures s[0].at >= rest[i].at {
        InsertMembers(e, s[1..], rest[i]);
        assert rest[i] in rest;
      }
    }
  }

  lemma {:induction false} SortOrdered(s: seq<Event>)
    ensures Ordered(SortDesc(s)) && |SortDesc(s)| == |s|
  {
    if s != [] {
      SortOrdered(s[1..]);
      InsertOrdered(s[0], SortDesc(s[1..]));
    }
  }

  /** A strictly descending list is determined by its members, so without ties the order is too. */
  lemma {:induction false} DescendingUnique(a: seq<Event>, b: seq<Event>)
    requires Descending(a) && Descending(b) && forall x :: x in a <==> x in b
    ensures a == b
  {
    if a == [] {
      assert forall i :: 0 <= i < |b| ==> b[i] in a;
    } else {
      assert a[0] in b && b != [];
      assert b[0] in a;
      assert a[0] == b[0];
      forall x ensures x in a[1..] <==> x in b[1..] {
        assert x in a <==> x == a[0] || x in a[1..];
        assert x in b <==> x == b[0] || x in b[1..];
      }
      DescendingUnique(a[1..], b[1..]);
    }
  }

  // ---- Cutting a list at an instant. ----

  function Older(s: seq<Event>, t: int): (r: seq<Event>)
    ensures |r| <= |s|
  {
    if s == [] then [] else if s[0].at < t then [s[0]] + Older(s[1..], t) else Older(s[1..], t)
  }

  lemma {:induction false} SelectOlder(log: seq<Event>, user: nat, t: int)
    ensures Select(log, user, Some(t)) == Older(Select(log, user, None), t)
  {
    if log != [] {
      SelectOlder(log[1..], user, t);
      var rest := Select(log[1..], user, None);
      assert ([log[0]] + rest)[1..] == rest;
    }
  }

  lemma {:induction false} OlderOfInsert(e: Event, s: seq<Event>, t: int)
    requires Ordered(s)
    ensures Older(InsertDesc(e, s), t) == if e.at < t then InsertDesc(e, Older(s, t)) else Older(s, t)
  {
    if s == [] || e.at >= s[0].at {
      assert ([e] + s)[1..] == s;
      assert e.at < t && s != [] ==> Older(s, t) == [s[0]] + Older(s[1..], t);
    } else {
      OlderOfInsert(e, s[1..], t);
      var rest := InsertDesc(e, s[1..]);
      assert ([s[0]] + rest)[1..] == rest;
      if s[0].at < t {
        assert Older(s, t)[1..] == Older(s[1..], t);
      }
    }
  }

  /** Cutting before sorting or after makes no difference, ties or no ties. */
  lemma {:induction false} OlderOfSort(s: seq<Event>, t: int)
    ensures SortDesc(Older(s, t)) == Older(SortDesc(s), t)
  {
    if s != [] {
      OlderOfSort(s[1..], t);
      SortOrdered(s[1..]);
      OlderOfInsert(s[0], SortDesc(s[1..]), t);
      if s[0].at < t {
        assert Older(s, t)[1..] == Older(s[1..], t);
      }
    }
  }

  /** The first index from k on whose event is strictly older than the one at k - 1. */
  function PastTie(s: seq<Event>, k: nat): (j: nat)
    requires 1 <= k <= |s|
    ensures k <= j <= |s|
    decreases |s| - k
  {
    if k == |s| || s[k].at < s[k - 1].at then k else PastTie(s, k + 1)
  }

  lemma {:induction false} AllOlder(s: seq<Event>, t: int)
    requires forall i :: 0 <= i < |s| ==> s[i].at < t
    ensures Older(s, t) == s
  {
    if s != [] {
      AllOlder(s[1..], t);
    }
  }

  lemma {:induction false} NoneOlder(a: seq<Event>, b: seq<Event>, t: int)
    requires forall i :: 0 <= i < |a| ==> a[i].at >= t
    ensures Older(a + b, t) == Older(b, t)
  {
    if a == [] {
      assert a + b == b;
    } else {
      NoneOlder(a[1..], b, t);
      assert (a + b)[1..] == a[1..] + b;
    }
  }

  lemma {:induction false} PastTieSplits(s: seq<Event>, k: nat)
    requires Ordered(s) && 1 <= k <= |s|
    ensures forall i :: 0 <= i < PastTie(s, k) ==> s[i].at >= s[k - 1].at
    ensures forall i :: PastTie(s, k) <= i < |s| ==> s[i].at < s[k - 1].at
    decreases |s| - k
  {
    if k < |s| && s[k].at == s[k - 1].at {
      PastTieSplits(s, k + 1);
    }
  }

  /** In an ordered list what is older than an event is everything past the events tied with it. */
  lemma OlderIsPastTie(s: seq<Event>, k: nat)
    requires Ordered(s) && 1 <= k <= |s|
    ensures Older(s, s[k - 1].at) == s[PastTie(s, k)..]
  {
    var j := PastTie(s, k);
    PastTieSplits(s, k);
    assert s == s[..j] + s[j..];
    NoneOlder(s[..j], s[j..], s[k - 1].at);
    AllOlder(s[j..], s[k - 1].at);
  }

  // ---- What is asked of the log. ----

  ghost predicate UniqueIds(log: seq<Event>) {
    forall i, j :: 0 <= i < j < |log| ==> log[i].id != log[j].id
  }

  /** The user's events all carry different instants. */
  ghost predicate UserHasNoTies(log: seq<Event>, user: nat) {
    forall i, j :: 0 <= i < j < |log| && log[i].user == user && log[j].user == user ==> log[i].at != log[j].at
  }

  /** `log` is `base` with events appended, the user's new ones strictly newer than the user's old ones. */
  ghost predicate Appended(base: seq<Event>, log: seq<Event>, user: nat) {
    && base <= log && UniqueIds(log)
    && forall i, j :: 0 <= i < |base| <= j < |log| && log[i].user == user && log[j].user == user ==> log[i].at < log[j].at
  }

  lemma AppendedIsUnique(base: seq<Event>, log: seq<Event>, user: nat)
    requires Appended(base, log, user)
    ensures UniqueIds(log)
  {
  }

  /** Everything the user has in `base`, newest first. */
  function All(base: seq<Event>, user: nat): seq<Event> {
    SortDesc(Select(base, user, None))
  }

  lemma AllIs(base: seq<Event>, user: nat)
    ensures Ordered(All(base, user))
    ensures forall x :: x in All(base, user) <==> x in base && x.user == user
  {
    SortOrdered(Select(base, user, None));
    forall x ensures x in All(base, user) <==> x in base && x.user == user {
      SelectMembers(base, user, None, x);
      SortMembers(Select(base, user, None), x);
    }
  }

  lemma {:induction false} InsertDistinct(e: Event, s: seq<Event>)
    requires Distinct(s) && e !in s
    ensures Distinct(InsertDesc(e, s))
  {
    if s != [] && e.at < s[0].at {
      InsertDistinct(e, s[1..]);
      InsertMembers(e, s[1..], s[0]);
    }
  }

  ghost predicate Distinct(s: seq<Event>) {
    forall i, j :: 0 <= i < j < |s| ==> s[i] != s[j]
  }

  lemma {:induction false} SelectDistinct(log: seq<Event>, user: nat)
    requires UniqueIds(log)
    ensures Distinct(Select(log, user, None))
  {
    if log != [] {
      SelectDistinct(log[1..], user);
      SelectMembers(log[1..], user, None, log[0]);
    }
  }

  lemma {:induction false} SortDistinct(s: seq<Event>)
    requires Distinct(s)
    ensures Distinct(SortDesc(s))
  {
    if s != [] {
      SortDistinct(s[1..]);
      SortMembers(s[1..], s[0]);
      InsertDistinct(s[0], SortDesc(s[1..]));
    }
  }

  /** Without ties the listing is strictly descending. */
  lemma AllDescends(base: seq<Event>, user: nat)
    requires UniqueIds(base) && UserHasNoTies(base, user)
    ensures Descending(All(base, user))
  {
    AllIs(base, user);
    SelectDistinct(base, user);
    SortDistinct(Select(base, user, None));
    var all := All(base, user);
    hide All, SortDesc;
    forall i, j | 0 <= i < j < |all| ensures all[i].at > all[j].at {
      assert all[i] in base && all[j] in base && all[i] != all[j];
    }
  }

  lemma {:induction false} InstantOfMember(log: seq<Event>, e: Event)
    requires UniqueIds(log) && e in log
    ensures InstantOf(log, e.id) == Some(e.at)
  {
    if log[0] != e {
      assert e in log[1..];
      InstantOfMember(log[1..], e);
    }
  }

  lemma {:induction false} SelectSplits(base: seq<Event>, more: seq<Event>, user: nat, before: Option<int>)
    ensures Select(base + more, user, before) == Select(base, user, before) + Select(more, user, before)
  {
    if base == [] {
      assert base + more == more;
    } else {
      var e, rest := base[0], base[1..];
      SelectSplits(rest, more, user, before);
      assert (base + more)[1..] == rest + more;
      if Selected(e, user, before) {
        assert Select(base + more, user, before) == [e] + (Select(rest, user, before) + Select(more, user, before));
      }
    }
  }

  lemma {:induction false} SelectsNothing(more: seq<Event>, user: nat, t: int)
    requires forall i :: 0 <= i < |more| && more[i].user == user ==> more[i].at >= t
    ensures Select(more, user, Some(t)) == []
  {
    if more != [] {
      SelectsNothing(more[1..], user, t);
    }
  }

  lemma NewerThanMember(base: seq<Event>, log: seq<Event>, user: nat, e: Event)
    requires Appended(base, log, user) && e in base && e.user == user
    ensures forall j :: 0 <= j < |log[|base|..]| && log[|base|..][j].user == user ==> log[|base|..][j].at >= e.at
  {
    var i :| 0 <= i < |base| && base[i] == e;
    assert log[i] == e;
  }

  /** Asked for what is older than one of the user's first events, the query does not see those appended. */
  lemma QueryIsOlder(base: seq<Event>, log: seq<Event>, user: nat, e: Event)
    requires Appended(base, log, user) && e in base && e.user == user
    ensures SortDesc(Select(log, user, Some(e.at))) == Older(All(base, user), e.at)
  {
    var more := log[|base|..];
    assert log == base + more;
    SelectSplits(base, more, user, Some(e.at));
    NewerThanMember(base, log, user, e);
    SelectsNothing(more, user, e.at);
    SelectOlder(base, user, e.at);
    OlderOfSort(Select(base, user, None), e.at);
    hide Select, SortDesc, Older, Appended;
    assert Select(log, user, Some(e.at)) == Select(base, user, Some(e.at));
  }

  /**
   * After the k-th event the query finds exactly what followed it and its ties at
   * the start, whatever was appended since.
   */
  lemma RestIsSuffix(base: seq<Event>, log: seq<Event>, user: nat, k: nat)
    requires Appended(base, log, user) && 1 <= k <= |All(base, user)|
    ensures InstantOf(log, All(base, user)[k - 1].id) == Some(All(base, user)[k - 1].at)
    ensures SortDesc(Select(log, user, Some(All(base, user)[k - 1].at))) == All(base, user)[PastTie(All(base, user), k)..]
  {
    hide All, SortDesc, Select, Older, InstantOf, PastTie;
    var all := All(base, user);
    AllIs(base, user);
    assert all[k - 1] in all && all[k - 1] in base;
    InstantOfMember(log, all[k - 1]);
    QueryIsOlder(base, log, user, all[k - 1]);
    OlderIsPastTie(all, k);
  }

  // ---- What following the cursors delivers. ----

  function CursorAt(all: seq<Event>, k: nat): (c: Option<nat>)
    requires k <= |all|
    ensures c.None? <==> k == 0
  {
    if k == 0 then None else Some(all[k - 1].id)
  }

  /** Where the page for a cursor at k starts. */
  function StartAt(all: seq<Event>, k: nat): (j: nat)
    requires k <= |all|
    ensures k <= j <= |all|
  {
    if k == 0 then 0 else PastTie(all, k)
  }

  /** The page served for a cursor at k: the next `limit` events past its ties, and a cursor if that leaves some. */
  lemma PageAfter(base: seq<Event>, log: seq<Event>, user: nat, k: nat, limit: int)
    requires 1 <= limit <= 100 && k <= |All(base, user)|
    requires Appended(base, log, user) && (k == 0 ==> log == base)
    ensures var all := All(base, user); var j := StartAt(all, k);
      GetActivity(log, user, CursorAt(all, k), limit) ==
        if |all| - j > limit then Page(all[j..j + limit], CursorAt(all, j + limit)) else Page(all[j..], None)
  {
    var all := All(base, user);
    var j := StartAt(all, k);
    if k > 0 {
      RestIsSuffix(base, log, user, k);
    } else {
      assert all[0..] == all;
    }
    assert Query(log, user, CursorAt(all, k), limit + 1) == Take(all[j..], limit + 1);
    hide All, Query, StartAt;
    if |all| - j > limit {
      assert Take(all[j..], limit + 1)[..limit] == all[j..j + limit];
    }
  }

  /** The events delivered from a cursor at k on: pages of `limit`, each break skipping the events tied with its cursor. */
  function Delivered(all: seq<Event>, k: nat, limit: int): (r: seq<Event>)
    requires 1 <= limit && k <= |all|
    ensures |r| <= |all| - k
    decreases |all| - k
  {
    var j := StartAt(all, k);
    if |all| - j > limit then all[j..j + limit] + Delivered(all, j + limit, limit) else all[j..]
  }

  lemma FollowUnfolds(logs: seq<seq<Event>>, user: nat, cursor: Option<nat>, limit: int, page: Page)
    requires 1 <= limit && logs != [] && GetActivity(logs[0], user, cursor, limit) == page
    ensures var rest := if page.next.None? then [] else Follow(logs[1..], user, page.next, limit);
      Follow(logs, user, cursor, limit) == [page.events] + rest
      && Flatten(Follow(logs, user, cursor, limit)) == page.events + Flatten(rest)
  {
    hide GetActivity;
  }

  lemma FlattenNothing()
    ensures Flatten([]) == []
  {
  }

  lemma DeliveredStep(all: seq<Event>, k: nat, limit: int)
    requires 1 <= limit && k <= |all|
    ensures var j := StartAt(all, k);
      Delivered(all, k, limit) ==
        if |all| - j > limit then all[j..j + limit] + Delivered(all, j + limit, limit) else all[j..]
  {
  }

  lemma {:induction false} FollowFrom(logs: seq<seq<Event>>, base: seq<Event>, user: nat, k: nat, limit: int)
    requires 1 <= limit <= 100 && k <= |All(base, user)|
    requires forall i :: 0 <= i < |logs| ==> Appended(base, logs[i], user)
    requires |logs| >= PagesNeeded(|All(base, user)| - k, limit)
    requires k == 0 ==> logs[0] == base
    ensures Flatten(Follow(logs, user, CursorAt(All(base, user), k), limit)) == Delivered(All(base, user), k, limit)
    decreases |logs|
  {
    hide All, GetActivity, Appended, StartAt, Follow, Flatten, Delivered, CursorAt, PagesNeeded;
    var all := All(base, user);
    PageAfter(base, logs[0], user, k, limit);
    FollowUnfolds(logs, user, CursorAt(all, k), limit, GetActivity(logs[0], user, CursorAt(all, k), limit));
    DeliveredStep(all, k, limit);
    var j := StartAt(all, k);
    if |all| - j > limit {
      FewerNeeded(|all| - (j + limit), |all| - k, limit);
      FollowFrom(logs[1..], base, user, j + limit, limit);
    } else {
      FlattenNothing();
    }
  }

  lemma {:induction false} FewerNeeded(m: int, n: int, limit: int)
    requires 1 <= limit && 0 < m && m + limit <= n
    ensures PagesNeeded(m, limit) + 1 <= PagesNeeded(n, limit)
    decreases n
  {
    if m > limit {
      FewerNeeded(m - limit, n - limit, limit);
    }
  }

  /** Page break number k, if there is one, does not fall inside a tie. */
  ghost predicate CleanAt(all: seq<Event>, k: nat, limit: int) {
    0 < k * limit < |all| ==> all[k * limit - 1].at > all[k * limit].at
  }

  ghost predicate CleanBreaks(all: seq<Event>, limit: int) {
    forall k: nat :: CleanAt(all, k, limit)
  }

  /** The same, break by break from k on. */
  ghost predicate CleanFrom(all: seq<Event>, k: nat, limit: int)
    requires 1 <= limit && k <= |all|
    decreases |all| - k
  {
    |all| - k > limit ==> all[k + limit - 1].at > all[k + limit].at && CleanFrom(all, k + limit, limit)
  }

  lemma MulAtLeast(a: nat, limit: int)
    requires a >= 1 && limit >= 1
    ensures a * limit >= limit
  {
  }

  lemma {:induction false} CleanFromIff(all: seq<Event>, p: nat, limit: int)
    requires 1 <= limit && p * limit <= |all|
    ensures CleanFrom(all, p * limit, limit) <==> forall k: nat :: k > p ==> CleanAt(all, k, limit)
    decreases |all| - p * limit
  {
    assert (p + 1) * limit == p * limit + limit;
    if |all| - p * limit > limit {
      CleanFromIff(all, p + 1, limit);
      assert CleanAt(all, p + 1, limit) <==> all[p * limit + limit - 1].at > all[p * limit + limit].at;
      hide CleanAt;
    } else {
      forall k: nat | k > p ensures CleanAt(all, k, limit) {
        assert k * limit == p * limit + (k - p) * limit;
        MulAtLeast(k - p, limit);
      }
    }
  }

  lemma CleanBreaksIff(all: seq<Event>, limit: int)
    requires 1 <= limit
    ensures CleanBreaks(all, limit) <==> CleanFrom(all, 0, limit)
  {
    assert 0 * limit == 0;
    CleanFromIff(all, 0, limit);
    assert CleanAt(all, 0, limit);
    hide CleanFrom, CleanAt;
  }

  lemma {:induction false} DeliveredAllIff(all: seq<Event>, k: nat, limit: int)
    requires 1 <= limit && Ordered(all) && k <= |all| && StartAt(all, k) == k
    ensures Delivered(all, k, limit) == all[k..] <==> CleanFrom(all, k, limit)
    decreases |all| - k
  {
    hide StartAt, Delivered;
    DeliveredStep(all, k, limit);
    var next := k + limit;
    if next < |all| {
      BreakIsClean(all, next);
      DeliveredFewer(all, next, limit);
      assert all[k..] == all[k..next] + all[next..];
      if StartAt(all, next) == next {
        DeliveredAllIff(all, next, limit);
      } else {
        assert |Delivered(all, k, limit)| < |all[k..]|;
      }
    }
  }

  lemma BreakIsClean(all: seq<Event>, k: nat)
    requires Ordered(all) && 0 < k < |all|
    ensures StartAt(all, k) == k <==> all[k - 1].at > all[k].at
  {
  }

  lemma DeliveredFewer(all: seq<Event>, k: nat, limit: int)
    requires 1 <= limit && k <= |all|
    ensures |Delivered(all, k, limit)| <= |all| - StartAt(all, k)
  {
  }

  /** Just enough pages: one fewer would not hold the n events. */
  ghost predicate JustEnough(p: int, n: int, limit: int) {
    p >= 1 && n <= p * limit && (n > 0 ==> (p - 1) * limit < n) && (n == 0 ==> p == 1)
  }

  lemma {:induction false} PagesNeededExact(n: int, limit: int)
    requires 1 <= limit && 0 <= n
    ensures JustEnough(PagesNeeded(n, limit), n, limit)
    decreases n
  {
    if n > limit {
      PagesNeededExact(n - limit, limit);
      var q := PagesNeeded(n - limit, limit);
      assert (q + 1) * limit == q * limit + limit && q * limit == (q - 1) * limit + limit;
    }
  }

  /** However many newer events are appended between pages, those delivered are a function of the first log alone. */
  lemma FollowDelivers(logs: seq<seq<Event>>, user: nat, limit: int)
    requires 1 <= limit <= 100 && logs != []
    requires forall i :: 0 <= i < |logs| ==> Appended(logs[0], logs[i], user)
    requires |logs| >= PagesNeeded(|All(logs[0], user)|, limit)
    ensures Flatten(Follow(logs, user, None, limit)) == Delivered(All(logs[0], user), 0, limit)
  {
    hide All, Delivered;
    FollowFrom(logs, logs[0], user, 0, limit);
  }

  /**
   * Exactly when the cursors reach every event, for any positive limit and with or
   * without ties: up to a limit of 100, if and only if no page break falls inside a
   * tie; beyond it, where the query silently fetches 51 rows, fewer than the limit
   * the handler compares with, if and only if there are at most 51 events.
   */
  lemma {:induction false} CompleteIff(logs: seq<seq<Event>>, user: nat, limit: int)
    requires 1 <= limit && logs != []
    requires forall i :: 0 <= i < |logs| ==> Appended(logs[0], logs[i], user)
    requires |logs| >= PagesNeeded(|All(logs[0], user)|, limit)
    ensures Flatten(Follow(logs, user, None, limit)) == All(logs[0], user) <==>
      if limit <= 100 then CleanBreaks(All(logs[0], user), limit) else |All(logs[0], user)| <= 51
  {
    var all := All(logs[0], user);
    if limit <= 100 {
      FollowDelivers(logs, user, limit);
      AllIs(logs[0], user);
      hide All, Delivered, Follow, Flatten, CleanBreaks, CleanFrom;
      DeliveredAllIff(all, 0, limit);
      CleanBreaksIff(all, limit);
      assert all[0..] == all;
    } else {
      assert GetActivity(logs[0], user, None, limit) == Page(Take(all, 51), None);
      assert Follow(logs, user, None, limit) == [Take(all, 51)];
      assert Flatten([Take(all, 51)]) == Take(all, 51) + Flatten([]);
    }
  }

  lemma DescendingStarts(all: seq<Event>, k: nat)
    requires Descending(all) && k <= |all|
    ensures StartAt(all, k) == k
  {
  }

  lemma {:induction false} PageCount(logs: seq<seq<Event>>, base: seq<Event>, user: nat, k: nat, limit: int)
    requires 1 <= limit <= 100 && k <= |All(base, user)| && Descending(All(base, user))
    requires forall i :: 0 <= i < |logs| ==> Appended(base, logs[i], user)
    requires |logs| >= PagesNeeded(|All(base, user)| - k, limit)
    requires k == 0 ==> logs[0] == base
    ensures |Follow(logs, user, CursorAt(All(base, user), k), limit)| == PagesNeeded(|All(base, user)| - k, limit)
    decreases |logs|
  {
    hide All, GetActivity, Appended, StartAt, Follow, Flatten, CursorAt, Descending;
    var all := All(base, user);
    PageAfter(base, logs[0], user, k, limit);
    DescendingStarts(all, k);
    FollowUnfolds(logs, user, CursorAt(all, k), limit, GetActivity(logs[0], user, CursorAt(all, k), limit));
    if |all| - k > limit {
      PageCount(logs[1..], base, user, k + limit, limit);
    }
  }

  lemma DescendingIsClean(all: seq<Event>, limit: int)
    requires Descending(all)
    ensures CleanBreaks(all, limit)
  {
    forall k: nat ensures CleanAt(all, k, limit) {
    }
  }

  /**
   * With a limit from 1 to 100 and no ties, following the cursors returns every
   * event the user had at the first request, exactly once and newest first, on just
   * enough pages (one if there are none), however many newer events are appended
   * between pages.
   */
  lemma {:induction false} PagesPartition(logs: seq<seq<Event>>, user: nat, limit: int)
    requires 1 <= limit <= 100 && logs != [] && UserHasNoTies(logs[0], user)
    requires forall i :: 0 <= i < |logs| ==> Appended(logs[0], logs[i], user)
    requires |logs| >= PagesNeeded(|All(logs[0], user)|, limit)
    ensures var pages := Follow(logs, user, None, limit); var n := |All(logs[0], user)|;
      && Flatten(pages) == All(logs[0], user)
      && JustEnough(|pages|, n, limit)
    ensures Descending(All(logs[0], user)) && forall x :: x in All(logs[0], user) <==> x in logs[0] && x.user == user
  {
    hide All, JustEnough, Follow, Flatten, Appended, CleanBreaks, UserHasNoTies, UniqueIds, PagesNeeded, Descending;
    AppendedIsUnique(logs[0], logs[0], user);
    AllIs(logs[0], user);
    AllDescends(logs[0], user);
    DescendingIsClean(All(logs[0], user), limit);
    CompleteIff(logs, user, limit);
    PageCount(logs, logs[0], user, 0, limit);
    PagesNeededExact(|All(logs[0], user)|, limit);
  }

  // ---- Ties. ----

  lemma {:induction false} DeliveredAreLater(all: seq<Event>, k: nat, limit: int, x: Event)
    requires 1 <= limit && k <= |all| && x in Delivered(all, k, limit)
    ensures x in all[StartAt(all, k)..]
    decreases |all| - k
  {
    var j := StartAt(all, k);
    if |all| - j > limit && x !in all[j..j + limit] {
      DeliveredAreLater(all, j + limit, limit, x);
      assert all[StartAt(all, j + limit)..] == all[j..][StartAt(all, j + limit) - j..];
    }
  }

  /** If the first page break falls inside a tie, the event right after it is on no page at all. */
  lemma {:induction false} TiesAreSkipped(logs: seq<seq<Event>>, user: nat, limit: int)
    requires 1 <= limit <= 100 && logs != []
    requires forall i :: 0 <= i < |logs| ==> Appended(logs[0], logs[i], user)
    requires |logs| >= PagesNeeded(|All(logs[0], user)|, limit)
    requires var all := All(logs[0], user); |all| > limit && all[limit].at == all[limit - 1].at
    ensures All(logs[0], user)[limit] in logs[0]
    ensures All(logs[0], user)[limit] !in Flatten(Follow(logs, user, None, limit))
  {
    var all := All(logs[0], user);
    AllIs(logs[0], user);
    assert all[limit] in all;
    FollowDelivers(logs, user, limit);
    assert Appended(logs[0], logs[0], user);
    SelectDistinct(logs[0], user);
    SortDistinct(Select(logs[0], user, None));
    assert Distinct(all);
    hide All, Follow, Flatten, Appended;
    assert Delivered(all, 0, limit) == all[..limit] + Delivered(all, limit, limit);
    if all[limit] in Delivered(all, limit, limit) {
      DeliveredAreLater(all, limit, limit, all[limit]);
    }
  }

  /** Two events at one instant, listed one to a page: the second is lost. */
  lemma TiedLogLosesEvent()
    ensures exists log: seq<Event>, user: nat, limit: int, e: Event ::
      && UniqueIds(log) && 1 <= limit <= 100 && e in log && e.user == user
      && e !in Flatten(Follow([log, log], user, None, limit))
  {
    var first, second := Event(0, 7, 5, 1, None, 0), Event(1, 7, 5, 1, None, 0);
    var log := [first, second];
    assert log[1..] == [second] && [second][1..] == [];
    assert Select([], 7, None) == [];
    assert Select([second], 7, None) == [second] + Select([], 7, None);
    assert Select(log, 7, None) == [first] + Select([second], 7, None);
    assert SortDesc([second]) == InsertDesc(second, SortDesc([])) == [second];
    assert SortDesc(log) == InsertDesc(first, [second]) == log;
    assert All(log, 7) == log;
    TiesAreSkipped([log, log], 7, 1);
    assert second in log && second !in Flatten(Follow([log, log], 7, None, 1));
  }
}
