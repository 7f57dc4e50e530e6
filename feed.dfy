/**
 * The notification feed of `useNotifications`: the server's notifications
 * followed by the signed-in user's entries of the local journal, folded into
 * a `Map` keyed by id (a later entry overwrites an earlier one but keeps its
 * place), sorted newest first, and the number of unread entries.
 *
 * The merge is specified independently of the fold: the feed lists the
 * distinct ids in order of first occurrence, each with its last occurrence.
 */
module Feed {
  import opened Wrappers
  import opened Schema
  import Unique

  // ---------------------------------------------------------------------
  // Sources

  /**
   * The local entries that enter the merge: none while no user id is known,
   * otherwise the journal entries of that user, in journal order.
   */
  function LocalFor(all: seq<Notification>, userId: Option<int>): (r: seq<Notification>)
    ensures Present(userId) ==> forall n :: n in r <==> n in all && n.userId == userId.value
    ensures !Present(userId) ==> r == []
  {
    if !Present(userId) || all == [] then []
    else
      var last := all[|all| - 1];
      LocalFor(all[..|all| - 1], userId) + (if last.userId == userId.value then [last] else [])
  }

  /** The query result: the server list only while a user id is known (the query is disabled otherwise). */
  function ApiFor(api: seq<Notification>, userId: Option<int>): seq<Notification> {
    if Present(userId) then api else []
  }

  predicate HasId(s: seq<Notification>, id: int) {
    exists k :: 0 <= k < |s| && s[k].id == id
  }

  predicate DistinctIds(s: seq<Notification>) {
    forall i, j :: 0 <= i < j < |s| ==> s[i].id != s[j].id
  }

  // ---------------------------------------------------------------------
  // The Map fold

  /** The position of the first entry with this id, or |acc| when there is none. */
  function IndexOfId(acc: seq<Notification>, id: int): (i: nat)
    ensures i <= |acc|
    ensures i < |acc| ==> acc[i].id == id
    ensures forall j :: 0 <= j < i ==> acc[j].id != id
  {
    if acc == [] then 0
    else if acc[0].id == id then 0
    else 1 + IndexOfId(acc[1..], id)
  }

  /** `map.set(n.id, n)` on the insertion-ordered values of the map. */
  function Upsert(acc: seq<Notification>, n: Notification): seq<Notification> {
    var i := IndexOfId(acc, n.id);
    if i < |acc| then acc[i := n] else acc + [n]
  }

  /** `Array.from(new Map(s.map(n => [n.id, n])).values())`. */
  function MapValues(s: seq<Notification>): seq<Notification> {
    if s == [] then [] else Upsert(MapValues(s[..|s| - 1]), s[|s| - 1])
  }

  // ---------------------------------------------------------------------
  // The reference definition of the merge

  /** The distinct ids of s, in order of first occurrence. */
  function FirstIds(s: seq<Notification>): seq<int> {
    if s == [] then []
    else
      var p := FirstIds(s[..|s| - 1]);
      if s[|s| - 1].id in p then p else p + [s[|s| - 1].id]
  }

  /** The last entry of s with this id. */
  function LastWith(s: seq<Notification>, id: int): (r: Option<Notification>)
    ensures r.Some? <==> HasId(s, id)
    ensures r.Some? ==> r.value in s && r.value.id == id
  {
    if s == [] then None
    else if s[|s| - 1].id == id then Some(s[|s| - 1])
    else
      var r := LastWith(s[..|s| - 1], id);
      assert HasId(s[..|s| - 1], id) ==> HasId(s, id);
      assert HasId(s, id) ==> HasId(s[..|s| - 1], id) by {
        if HasId(s, id) {
          var k :| 0 <= k < |s| && s[k].id == id;
          assert k < |s| - 1 && s[..|s| - 1][k].id == id;
        }
      }
      r
  }

  /** The set of ids that occur in s. */
  function IdSet(s: seq<Notification>): set<int> {
    set k | 0 <= k < |s| :: s[k].id
  }

  lemma {:induction false} FirstIdsMembers(s: seq<Notification>)
    ensures forall id :: id in FirstIds(s) <==> HasId(s, id)
    ensures forall i, j :: 0 <= i < j < |FirstIds(s)| ==> FirstIds(s)[i] != FirstIds(s)[j]
  {
    if s != [] {
      var p := s[..|s| - 1];
      FirstIdsMembers(p);
      forall id
        ensures HasId(s, id) <==> HasId(p, id) || s[|s| - 1].id == id
      {
        if HasId(s, id) && s[|s| - 1].id != id {
          var k :| 0 <= k < |s| && s[k].id == id;
          assert p[k].id == id;
        }
        if HasId(p, id) {
          var k :| 0 <= k < |p| && p[k].id == id;
          assert s[k].id == id;
        }
      }
    }
  }

  /** The fold computes the reference definition: first-occurrence order, last-occurrence value. */
  lemma {:induction false} MapValuesSpec(s: seq<Notification>)
    ensures |MapValues(s)| == |FirstIds(s)|
    ensures forall k :: 0 <= k < |MapValues(s)| ==>
      MapValues(s)[k].id == FirstIds(s)[k] && LastWith(s, FirstIds(s)[k]) == Some(MapValues(s)[k])
  {
    if s != [] {
      var p := s[..|s| - 1];
      var x := s[|s| - 1];
      MapValuesSpec(p);
      FirstIdsMembers(p);
      var acc := MapValues(p);
      var i := IndexOfId(acc, x.id);
      if i < |acc| {
        assert x.id in FirstIds(p);
        forall k | 0 <= k < |MapValues(s)|
          ensures MapValues(s)[k].id == FirstIds(s)[k] && LastWith(s, FirstIds(s)[k]) == Some(MapValues(s)[k])
        {
          if k != i {
            assert FirstIds(p)[k] != FirstIds(p)[i];
          }
        }
      } else {
        forall j | 0 <= j < |FirstIds(p)|
          ensures FirstIds(p)[j] != x.id
        {
          assert acc[j].id != x.id;
        }
      }
    }
  }

  /** The merged values carry pairwise distinct ids, exactly the ids of the input. */
  lemma MapValuesIds(s: seq<Notification>)
    ensures DistinctIds(MapValues(s))
    ensures forall id :: HasId(MapValues(s), id) <==> HasId(s, id)
    ensures forall n :: n in MapValues(s) ==> n in s && LastWith(s, n.id) == Some(n)
  {
    MapValuesSpec(s);
    FirstIdsMembers(s);
    var mv := MapValues(s);
    forall id
      ensures HasId(mv, id) <==> HasId(s, id)
    {
      if HasId(s, id) {
        var j :| 0 <= j < |FirstIds(s)| && FirstIds(s)[j] == id;
        assert mv[j].id == id;
      }
    }
  }

  /** The merge keeps one entry per distinct id of the input. */
  lemma MapValuesLength(s: seq<Notification>)
    ensures |MapValues(s)| == |IdSet(s)|
  {
    MapValuesSpec(s);
    FirstIdsMembers(s);
    Unique.SetSize(FirstIds(s));
    assert Unique.Elements(FirstIds(s)) == IdSet(s) by {
      forall id | id in IdSet(s)
        ensures id in FirstIds(s)
      {
        var k :| 0 <= k < |s| && s[k].id == id;
        assert HasId(s, id);
      }
    }
  }

  /** On an id collision the later source wins: b's last entry for an id b holds. */
  lemma {:induction false} LaterSourceWins(a: seq<Notification>, b: seq<Notification>, id: int)
    requires HasId(b, id)
    ensures LastWith(a + b, id) == LastWith(b, id)
  {
    var x := b[|b| - 1];
    assert (a + b)[..|a + b| - 1] == a + b[..|b| - 1];
    if x.id != id {
      LaterSourceWins(a, b[..|b| - 1], id);
    }
  }

  /** Appending entries whose ids are all known already adds no id. */
  lemma {:induction false} FirstIdsKnown(a: seq<Notification>, b: seq<Notification>)
    requires forall n :: n in b ==> HasId(a, n.id)
    ensures FirstIds(a + b) == FirstIds(a)
  {
    if b != [] {
      assert (a + b)[..|a + b| - 1] == a + b[..|b| - 1];
      assert (a + b)[|a + b| - 1] == b[|b| - 1];
      FirstIdsKnown(a, b[..|b| - 1]);
      FirstIdsMembers(a);
      assert b[|b| - 1] in b;
      assert b[|b| - 1].id in FirstIds(a);
    } else {
      assert a + b == a;
    }
  }

  /** Merging a list with a copy of itself gives that list's merge. */
  lemma SelfMerge(s: seq<Notification>)
    ensures MapValues(s + s) == MapValues(s)
  {
    assert forall n :: n in s ==> HasId(s, n.id) by {
      forall n | n in s
        ensures HasId(s, n.id)
      {
        var k :| 0 <= k < |s| && s[k] == n;
      }
    }
    FirstIdsKnown(s, s);
    MapValuesSpec(s);
    MapValuesSpec(s + s);
    FirstIdsMembers(s);
    forall k | 0 <= k < |MapValues(s)|
      ensures MapValues(s + s)[k] == MapValues(s)[k]
    {
      var id := FirstIds(s)[k];
      assert HasId(s, id);
      LaterSourceWins(s, s, id);
    }
  }

  // ---------------------------------------------------------------------
  // Newest first

  predicate NewestFirst(s: seq<Notification>) {
    forall i, j :: 0 <= i < j < |s| ==> s[i].createdAt >= s[j].createdAt
  }

  /**
   * Inserts n into a newest-first list after every entry at least as new, so
   * that among equal timestamps the earlier entry stays first, as the stable
   * `Array.prototype.sort` keeps them.
   */
  function InsertByTime(n: Notification, t: seq<Notification>): (r: seq<Notification>)
    ensures multiset(r) == multiset(t) + multiset{n}
  {
    if t == [] then [n]
    else if t[0].createdAt >= n.createdAt then
      assert t == [t[0]] + t[1..];
      [t[0]] + InsertByTime(n, t[1..])
    else [n] + t
  }

  /** Insertion keeps a list newest first. */
  lemma {:induction false} InsertSorted(n: Notification, t: seq<Notification>)
    requires NewestFirst(t)
    ensures NewestFirst(InsertByTime(n, t))
  {
    if t != [] && t[0].createdAt >= n.createdAt {
      var rest := InsertByTime(n, t[1..]);
      InsertSorted(n, t[1..]);
      InsertBounded(n, t[1..], t[0].createdAt);
      assert InsertByTime(n, t) == [t[0]] + rest;
    }
  }

  /** Inserting into a list no newer than a bound, an entry no newer than it, gives a list no newer than it. */
  lemma {:induction false} InsertBounded(n: Notification, t: seq<Notification>, bound: int)
    requires n.createdAt <= bound
    requires forall k :: 0 <= k < |t| ==> t[k].createdAt <= bound
    ensures forall k :: 0 <= k < |InsertByTime(n, t)| ==> InsertByTime(n, t)[k].createdAt <= bound
  {
    if t != [] && t[0].createdAt >= n.createdAt {
      InsertBounded(n, t[1..], bound);
      var r := InsertByTime(n, t);
      assert r == [t[0]] + InsertByTime(n, t[1..]);
    }
  }

  /** `s.sort((a, b) => b.createdAt - a.createdAt)`, by insertion. */
  function SortNewest(s: seq<Notification>): (r: seq<Notification>)
    ensures NewestFirst(r)
    ensures multiset(r) == multiset(s)
  {
    if s == [] then []
    else
      var r := InsertByTime(s[|s| - 1], SortNewest(s[..|s| - 1]));
      InsertSorted(s[|s| - 1], SortNewest(s[..|s| - 1]));
      assert s == s[..|s| - 1] + [s[|s| - 1]];
      r
  }

  // ---------------------------------------------------------------------
  // The feed

  /** The `notifications` list the hook returns. */
  function Notifications(api: seq<Notification>, all: seq<Notification>, userId: Option<int>): seq<Notification> {
    SortNewest(MapValues(ApiFor(api, userId) + LocalFor(all, userId)))
  }

  /** `notifications.filter(n => !n.read).length`. */
  function UnreadCount(s: seq<Notification>): nat {
    if s == [] then 0
    else UnreadCount(s[..|s| - 1]) + (if s[|s| - 1].read then 0 else 1)
  }

  /** The unread count never exceeds the list, and is 0 exactly when every entry is read. */
  lemma {:induction false} UnreadCountBounds(s: seq<Notification>)
    ensures UnreadCount(s) <= |s|
    ensures UnreadCount(s) == 0 <==> forall n :: n in s ==> n.read
  {
    if s != [] {
      UnreadCountBounds(s[..|s| - 1]);
      assert s == s[..|s| - 1] + [s[|s| - 1]];
    }
  }

  /** The feed holds each id of either source exactly once, and nothing else. */
  lemma FeedIds(api: seq<Notification>, all: seq<Notification>, userId: Option<int>)
    ensures DistinctIds(Notifications(api, all, userId))
    ensures |Notifications(api, all, userId)| == |IdSet(ApiFor(api, userId) + LocalFor(all, userId))|
    ensures forall id :: HasId(Notifications(api, all, userId), id) <==> HasId(ApiFor(api, userId) + LocalFor(all, userId), id)
  {
    var c := ApiFor(api, userId) + LocalFor(all, userId);
    var mv := MapValues(c);
    var feed := Notifications(api, all, userId);
    MapValuesIds(c);
    MapValuesLength(c);
    assert |feed| == |mv| by {
      assert |multiset(feed)| == |multiset(mv)|;
    }
    SortIds(mv);
  }

  /** Inserting adds exactly the id of the new entry. */
  lemma InsertHasId(n: Notification, t: seq<Notification>)
    ensures forall id :: HasId(InsertByTime(n, t), id) <==> id == n.id || HasId(t, id)
  {
    var r := InsertByTime(n, t);
    forall id
      ensures HasId(r, id) <==> id == n.id || HasId(t, id)
    {
      if HasId(r, id) {
        var k :| 0 <= k < |r| && r[k].id == id;
        assert r[k] in multiset(r);
        if r[k] != n {
          assert r[k] in multiset(t);
          var j :| 0 <= j < |t| && t[j] == r[k];
        }
      }
      if id == n.id {
        assert n in multiset(r);
        var j :| 0 <= j < |r| && r[j] == n;
      }
      if HasId(t, id) {
        var k :| 0 <= k < |t| && t[k].id == id;
        assert t[k] in multiset(r);
        var j :| 0 <= j < |r| && r[j] == t[k];
      }
    }
  }

  /** Inserting an entry with a new id into a list of distinct ids keeps them distinct. */
  lemma {:induction false} InsertDistinct(n: Notification, t: seq<Notification>)
    requires DistinctIds(t) && !HasId(t, n.id)
    ensures DistinctIds(InsertByTime(n, t))
  {
    if t != [] && t[0].createdAt >= n.createdAt {
      var tail := t[1..];
      assert t == [t[0]] + tail;
      ConsDistinct(t[0], tail);
      InsertDistinct(n, tail);
      InsertHasId(n, tail);
      ConsDistinct(t[0], InsertByTime(n, tail));
    } else {
      ConsDistinct(n, t);
    }
  }

  /** A list headed by x has distinct ids exactly when its tail does and lacks x's id. */
  lemma ConsDistinct(x: Notification, rest: seq<Notification>)
    ensures DistinctIds([x] + rest) <==> DistinctIds(rest) && !HasId(rest, x.id)
  {
    var r := [x] + rest;
    if DistinctIds(rest) && !HasId(rest, x.id) {
      forall i, j | 0 <= i < j < |r|
        ensures r[i].id != r[j].id
      {
        assert r[j] == rest[j - 1];
        if i > 0 {
          assert r[i] == rest[i - 1];
        }
      }
    }
    if DistinctIds(r) {
      forall i, j | 0 <= i < j < |rest|
        ensures rest[i].id != rest[j].id
      {
        assert rest[i] == r[i + 1] && rest[j] == r[j + 1];
      }
      forall k | 0 <= k < |rest|
        ensures rest[k].id != x.id
      {
        assert r[0] == x && rest[k] == r[k + 1];
        assert r[0].id != r[k + 1].id;
      }
    }
  }

  /** Sorting keeps exactly the ids of the list, and keeps them distinct. */
  lemma {:induction false} SortIds(s: seq<Notification>)
    ensures forall id :: HasId(SortNewest(s), id) <==> HasId(s, id)
    ensures DistinctIds(s) ==> DistinctIds(SortNewest(s))
  {
    if s != [] {
      var p := s[..|s| - 1];
      var x := s[|s| - 1];
      SortIds(p);
      InsertHasId(x, SortNewest(p));
      forall id
        ensures HasId(s, id) <==> id == x.id || HasId(p, id)
      {
        if HasId(s, id) && id != x.id {
          var k :| 0 <= k < |s| && s[k].id == id;
          assert p[k].id == id;
        }
        if HasId(p, id) {
          var k :| 0 <= k < |p| && p[k].id == id;
          assert s[k].id == id;
        }
      }
      if DistinctIds(s) {
        assert !HasId(p, x.id) by {
          forall k | 0 <= k < |p|
            ensures p[k].id != x.id
          {
            assert s[k].id != s[|s| - 1].id;
          }
        }
        InsertDistinct(x, SortNewest(p));
      }
    }
  }

  /** Every feed entry is the last entry with its id in server-then-local order; a local entry beats a server entry with its id. */
  lemma FeedProvenance(api: seq<Notification>, all: seq<Notification>, userId: Option<int>)
    ensures forall n :: n in Notifications(api, all, userId) ==>
      (n in ApiFor(api, userId) || n in LocalFor(all, userId))
      && LastWith(ApiFor(api, userId) + LocalFor(all, userId), n.id) == Some(n)
    ensures forall n :: n in Notifications(api, all, userId) && HasId(LocalFor(all, userId), n.id) ==>
      n in LocalFor(all, userId) && n.userId == userId.value && LastWith(LocalFor(all, userId), n.id) == Some(n)
  {
    var a := ApiFor(api, userId);
    var l := LocalFor(all, userId);
    var mv := MapValues(a + l);
    var feed := Notifications(api, all, userId);
    MapValuesIds(a + l);
    forall n | n in feed
      ensures (n in a || n in l) && LastWith(a + l, n.id) == Some(n)
      ensures HasId(l, n.id) ==> n in l && n.userId == userId.value && LastWith(l, n.id) == Some(n)
    {
      assert n in multiset(feed);
      assert n in mv;
      if HasId(l, n.id) {
        LaterSourceWins(a, l, n.id);
        assert Present(userId);
      }
    }
  }

  lemma {:induction false} UnreadAppend(a: seq<Notification>, b: seq<Notification>)
    ensures UnreadCount(a + b) == UnreadCount(a) + UnreadCount(b)
  {
    if b == [] {
      assert a + b == a;
    } else {
      assert (a + b)[..|a + b| - 1] == a + b[..|b| - 1];
      UnreadAppend(a, b[..|b| - 1]);
    }
  }

  lemma {:induction false} UnreadInsert(n: Notification, t: seq<Notification>)
    ensures UnreadCount(InsertByTime(n, t)) == UnreadCount(t) + UnreadCount([n])
  {
    if t != [] && t[0].createdAt >= n.createdAt {
      UnreadInsert(n, t[1..]);
      UnreadAppend([t[0]], InsertByTime(n, t[1..]));
      UnreadAppend([t[0]], t[1..]);
      assert t == [t[0]] + t[1..];
    } else {
      UnreadAppend([n], t);
      UnreadAppend(t, [n]);
    }
  }

  /** Sorting does not change how many entries are unread. */
  lemma {:induction false} UnreadSort(s: seq<Notification>)
    ensures UnreadCount(SortNewest(s)) == UnreadCount(s)
  {
    if s != [] {
      var p := s[..|s| - 1];
      var x := s[|s| - 1];
      UnreadSort(p);
      UnreadInsert(x, SortNewest(p));
      assert SortNewest(s) == InsertByTime(x, SortNewest(p));
      assert UnreadCount(s) == UnreadCount(p) + UnreadCount([x]);
    }
  }

  /** The badge counts the unread entries of the merged list, whatever their order. */
  lemma FeedUnread(api: seq<Notification>, all: seq<Notification>, userId: Option<int>)
    ensures UnreadCount(Notifications(api, all, userId)) == UnreadCount(MapValues(ApiFor(api, userId) + LocalFor(all, userId)))
    ensures UnreadCount(Notifications(api, all, userId)) <= |Notifications(api, all, userId)|
  {
    UnreadSort(MapValues(ApiFor(api, userId) + LocalFor(all, userId)));
    UnreadCountBounds(Notifications(api, all, userId));
  }
}
