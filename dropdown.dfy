/**
 * The notification drop-down: "mark all as read" (the server's bulk update,
 * then the read-modify-write of the local journal), the relative-time label
 * and the icon choice.
 */
module Dropdown {
  import opened Wrappers
  import opened Schema
  import opened Text
  import opened Journal
  import Feed
  import Dashboard

  // ---------------------------------------------------------------------
  // Mark all as read

  /**
   * `allLocal.map(n => n.userId === userId ? { ...n, read: true } : n)`.
   * The signed-in user id is None when it is null or NaN, and neither equals
   * any stored id; 0 is compared like any other number.
   */
  function MarkRead(entries: seq<Notification>, userId: Option<int>): (r: seq<Notification>)
    ensures |r| == |entries|
    ensures forall k :: 0 <= k < |r| && userId == Some(entries[k].userId) ==> r[k].read
    ensures forall k :: 0 <= k < |r| && userId != Some(entries[k].userId) ==> r[k] == entries[k]
    ensures forall k :: 0 <= k < |r| ==> r[k].(read := entries[k].read) == entries[k]
  {
    seq(|entries|, k requires 0 <= k < |entries| =>
      if userId == Some(entries[k].userId) then entries[k].(read := true) else entries[k])
  }

  /** Marking twice is marking once. */
  lemma MarkReadIdempotent(entries: seq<Notification>, userId: Option<int>)
    ensures MarkRead(MarkRead(entries, userId), userId) == MarkRead(entries, userId)
  {
    var once := MarkRead(entries, userId);
    var twice := MarkRead(once, userId);
    forall k | 0 <= k < |entries|
      ensures twice[k] == once[k]
    {
      assert once[k].userId == entries[k].userId;
    }
  }

  /** After the rewrite the feed's local part has nothing unread. */
  lemma MarkReadClearsLocalUnread(all: seq<Notification>, userId: Option<int>)
    ensures Feed.UnreadCount(Feed.LocalFor(MarkRead(all, userId), userId)) == 0
  {
    var marked := MarkRead(all, userId);
    var local := Feed.LocalFor(marked, userId);
    forall n | n in local
      ensures n.read
    {
      var k :| 0 <= k < |marked| && marked[k] == n;
      assert marked[k].userId == all[k].userId;
    }
    Feed.UnreadCountBounds(local);
  }

  /**
   * The mutation: with a usable user id the server's bulk update is requested
   * first (`patched` is the id it is requested for); a rejected request
   * aborts before the journal is touched. Otherwise the journal is rewritten
   * and "notifications-updated" is dispatched.
   */
  method MarkAllRead(journal: ReminderJournal, userId: Option<int>, serverAccepts: bool)
    returns (patched: Option<int>, ok: bool)
    modifies journal
    ensures patched == (if Present(userId) then userId else None)
    ensures ok <==> !Present(userId) || serverAccepts
    ensures ok ==> journal.entries == MarkRead(old(journal.entries), userId)
                   && journal.broadcasts == old(journal.broadcasts) + 1
    ensures !ok ==> journal.entries == old(journal.entries) && journal.broadcasts == old(journal.broadcasts)
  {
    patched := None;
    if Present(userId) {
      patched := userId;
      if !serverAccepts {
        return patched, false;
      }
    }
    journal.entries := MarkRead(journal.entries, userId);
    journal.broadcasts := journal.broadcasts + 1;
    ok := true;
  }

  // ---------------------------------------------------------------------
  // Relative time

  const MINUTE_MS := 60000

  /** `Math.floor((now - since) / 60000)`; the divisor is positive, so Dafny's division is the floor. */
  function ElapsedMinutes(now: int, since: int): (d: int)
    ensures d * MINUTE_MS <= now - since < (d + 1) * MINUTE_MS
  {
    (now - since) / MINUTE_MS
  }

  datatype Ago = Minutes(count: int) | Hours(count: int) | Days(count: int)

  /** `getTimeAgo`'s bucket for d elapsed minutes. */
  function Bucket(d: int): (a: Ago)
    ensures a.Minutes? <==> d < 60
    ensures a.Minutes? ==> a.count == d
    ensures a.Hours? <==> 60 <= d < 1440
    ensures a.Hours? ==> 1 <= a.count < 24 && a.count * 60 <= d < (a.count + 1) * 60
    ensures a.Days? ==> 1 <= a.count && a.count * 1440 <= d < (a.count + 1) * 1440
  {
    if d < 60 then Minutes(d)
    else if d < 1440 then Hours(d / 60)
    else Days(d / 1440)
  }

  function UnitWords(a: Ago): string {
    match a
    case Minutes(_) => " minutes ago"
    case Hours(_) => " hours ago"
    case Days(_) => " days ago"
  }

  /**
   * The label text, e.g. "5 minutes ago", "2 hours ago", "3 days ago": read
   * back with parseInt it gives the bucket's count, and it ends with the unit.
   */
  function TimeAgo(now: int, since: int): (shown: string)
    ensures var a := Bucket(ElapsedMinutes(now, since));
      ParseInt(shown) == Some(a.count)
      && |shown| > |UnitWords(a)| && shown[|shown| - |UnitWords(a)|..] == UnitWords(a)
  {
    var a := Bucket(ElapsedMinutes(now, since));
    var shown := IntToString(a.count) + UnitWords(a);
    ParseIntOfIntToString(a.count, UnitWords(a));
    assert shown[|shown| - |UnitWords(a)|..] == UnitWords(a);
    shown
  }

  /** A later reading of the clock never shows a smaller elapsed count in the same unit. */
  lemma BucketMonotone(d1: int, d2: int)
    requires d1 <= d2
    ensures Bucket(d1).Minutes? && Bucket(d2).Minutes? ==> Bucket(d1).count <= Bucket(d2).count
    ensures Bucket(d1).Hours? && Bucket(d2).Hours? ==> Bucket(d1).count <= Bucket(d2).count
    ensures Bucket(d1).Days? && Bucket(d2).Days? ==> Bucket(d1).count <= Bucket(d2).count
    ensures Bucket(d2).Minutes? ==> Bucket(d1).Minutes?
    ensures Bucket(d1).Days? ==> Bucket(d2).Days?
  {
  }

  // ---------------------------------------------------------------------
  // Icons

  datatype Icon = Pill | Calendar | Lightbulb | DefaultPill

  /** `getNotificationIcon`. */
  function NotificationIcon(kind: string): (icon: Icon)
    ensures icon == Pill <==> kind == "medicine"
    ensures icon == Calendar <==> kind == "appointment"
    ensures icon == Lightbulb <==> kind == "tip"
    ensures icon == DefaultPill <==> kind != "medicine" && kind != "appointment" && kind != "tip"
  {
    if kind == "medicine" then Pill
    else if kind == "appointment" then Calendar
    else if kind == "tip" then Lightbulb
    else DefaultPill
  }

  /** Schedule reminders get the default icon, medicine reminders the pill. */
  lemma ReminderIcons()
    ensures NotificationIcon(Dashboard.SCHEDULE_KIND) == DefaultPill
    ensures NotificationIcon(Dashboard.MEDICINE_KIND) == Pill
  {
    assert Dashboard.SCHEDULE_KIND != "medicine" && Dashboard.SCHEDULE_KIND != "appointment" && Dashboard.SCHEDULE_KIND != "tip";
  }
}
