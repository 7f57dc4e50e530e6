/**
 * The dashboard page's logic: the pending-task filter, the health score, and
 * `checkReminders`, the once-per-item-per-day reminder step that appends to
 * the local journal.
 *
 * The clock is passed in: `currentTime` is the "HH:mm" text of the current
 * minute, `todayStart` the millisecond timestamp of local midnight, and
 * `stamp` the millisecond clock reading used for the new entries' ids and
 * creation time.
 */
module Dashboard {
  import opened Wrappers
  import opened Schema
  import opened Text
  import opened Journal

  const SCHEDULE_KIND := "schedule"
  const MEDICINE_KIND := "medicine"

  // ---------------------------------------------------------------------
  // Schedules

  /** `todaySchedules`: the schedules not completed yet, in list order. */
  function TodaySchedules(schedules: seq<Schedule>): (r: seq<Schedule>)
    ensures forall s :: s in r <==> s in schedules && !s.completed
  {
    if schedules == [] then []
    else
      var last := schedules[|schedules| - 1];
      TodaySchedules(schedules[..|schedules| - 1]) + (if last.completed then [] else [last])
  }

  /** `schedules.filter(s => s.completed).length`. */
  function CompletedCount(schedules: seq<Schedule>): nat {
    if schedules == [] then 0
    else CompletedCount(schedules[..|schedules| - 1]) + (if schedules[|schedules| - 1].completed then 1 else 0)
  }

  /** Every schedule is either pending or completed. */
  lemma {:induction false} PendingPlusCompleted(schedules: seq<Schedule>)
    ensures |TodaySchedules(schedules)| + CompletedCount(schedules) == |schedules|
  {
    if schedules != [] {
      PendingPlusCompleted(schedules[..|schedules| - 1]);
    }
  }

  // ---------------------------------------------------------------------
  // Health score

  /** `r.bloodPressure && parseInt(r.bloodPressure.split('/')[0]) > 140`. */
  predicate SystolicHigh(r: HealthReport) {
    r.bloodPressure.Some? && r.bloodPressure.value != ""
    && var sys := ParseInt(Split(r.bloodPressure.value, '/')[0]);
       sys.Some? && sys.value > 140
  }

  /** `r.heartRate && (parseInt(r.heartRate) > 100 || parseInt(r.heartRate) < 60)`. */
  predicate HeartRateOff(r: HealthReport) {
    r.heartRate.Some? && r.heartRate.value != ""
    && var hr := ParseInt(r.heartRate.value);
       hr.Some? && (hr.value > 100 || hr.value < 60)
  }

  /** The score before clamping: 50, minus the three penalties, plus 2 per completed task. */
  function RawScore(user: User, reports: seq<HealthReport>, schedules: seq<Schedule>): int {
    50
    - (if user.age.Some? && user.age.value > 60 then 10 else 0)
    - (if exists r :: r in reports && SystolicHigh(r) then 15 else 0)
    - (if exists r :: r in reports && HeartRateOff(r) then 15 else 0)
    + 2 * CompletedCount(schedules)
  }

  /** `Math.max(0, Math.min(100, x))`. */
  function Clamp(x: int): (r: int)
    ensures 0 <= r <= 100
    ensures 0 <= x <= 100 ==> r == x
    ensures x > 100 ==> r == 100
    ensures x < 0 ==> r == 0
  {
    if x < 0 then 0 else if x > 100 then 100 else x
  }

  /**
   * `calculateHealthScore` as a number: None stands for "--" (no user loaded
   * or no reports); otherwise the clamped score.
   */
  function HealthScore(user: Option<User>, reports: seq<HealthReport>, schedules: seq<Schedule>): (r: Option<int>)
    ensures r.None? <==> user.None? || reports == []
    ensures r.Some? ==> 10 <= r.value <= 100
  {
    if user.None? || |reports| == 0 then None
    else
      LowerClampUnreachable(user.value, reports, schedules);
      Some(Clamp(RawScore(user.value, reports, schedules)))
  }

  /** The text the dashboard shows: "--" or the score followed by "%". */
  function HealthScoreLabel(user: Option<User>, reports: seq<HealthReport>, schedules: seq<Schedule>): (shown: string)
    ensures shown == "--" <==> user.None? || reports == []
    ensures HealthScore(user, reports, schedules).Some? ==>
              ParseInt(shown) == HealthScore(user, reports, schedules) && |shown| >= 2 && shown[|shown| - 1] == '%'
  {
    match HealthScore(user, reports, schedules)
    case None => "--"
    case Some(score) =>
      ParseIntOfNatToString(score, "%");
      NatToString(score) + "%"
  }

  /** The penalties add up to at most 40, so the lower clamp at 0 never applies. */
  lemma LowerClampUnreachable(user: User, reports: seq<HealthReport>, schedules: seq<Schedule>)
    ensures RawScore(user, reports, schedules) >= 10
  {
  }

  /** Completing one more task never lowers the score. */
  lemma {:induction false} CompletingRaisesScore(user: User, reports: seq<HealthReport>, schedules: seq<Schedule>, done: Schedule)
    requires done.completed && reports != []
    ensures HealthScore(Some(user), reports, schedules + [done]).value
         >= HealthScore(Some(user), reports, schedules).value
  {
    assert (schedules + [done])[..|schedules + [done]| - 1] == schedules;
    assert CompletedCount(schedules + [done]) == CompletedCount(schedules) + 1;
  }

  /**
   * A reader over 60 with a high systolic reading and an abnormal heart rate
   * starts at 10 points and gains 2 per completed task, up to 100.
   */
  lemma {:induction false} WorstCaseScore(user: User, reports: seq<HealthReport>, schedules: seq<Schedule>,
                                          r1: HealthReport, r2: HealthReport)
    requires user.age.Some? && user.age.value > 60
    requires r1 in reports && SystolicHigh(r1) && r2 in reports && HeartRateOff(r2)
    ensures HealthScore(Some(user), reports, schedules)
         == Some(if CompletedCount(schedules) >= 45 then 100 else 10 + 2 * CompletedCount(schedules))
    ensures HealthScore(Some(user), reports, []) == Some(10)
  {
    WorstCaseAnyTasks(user, reports, schedules, r1, r2);
    var none: seq<Schedule> := [];
    WorstCaseAnyTasks(user, reports, none, r1, r2);
    assert CompletedCount(none) == 0;
  }

  /** The worst case with the given tasks: 10 plus 2 per completed one, capped at 100. */
  lemma WorstCaseAnyTasks(user: User, reports: seq<HealthReport>, schedules: seq<Schedule>,
                          r1: HealthReport, r2: HealthReport)
    requires user.age.Some? && user.age.value > 60
    requires r1 in reports && SystolicHigh(r1) && r2 in reports && HeartRateOff(r2)
    ensures HealthScore(Some(user), reports, schedules)
         == Some(if CompletedCount(schedules) >= 45 then 100 else 10 + 2 * CompletedCount(schedules))
  {
    WorstCaseRaw(user, reports, schedules, r1, r2);
    ScoreOfRaw(user, reports, schedules);
    ClampFromTen(CompletedCount(schedules));
  }

  /** Ten plus two per task reaches the cap of 100 at 45 tasks. */
  lemma ClampFromTen(c: nat)
    ensures Clamp(10 + 2 * c) == if c >= 45 then 100 else 10 + 2 * c
  {
  }

  /** With a user and a report, the score is the clamped raw score. */
  lemma ScoreOfRaw(user: User, reports: seq<HealthReport>, schedules: seq<Schedule>)
    requires reports != []
    ensures HealthScore(Some(user), reports, schedules) == Some(Clamp(RawScore(user, reports, schedules)))
  {
  }

  /** The three penalties all apply, leaving 10 plus 2 per completed task before clamping. */
  lemma WorstCaseRaw(user: User, reports: seq<HealthReport>, schedules: seq<Schedule>,
                     r1: HealthReport, r2: HealthReport)
    requires user.age.Some? && user.age.value > 60
    requires r1 in reports && SystolicHigh(r1) && r2 in reports && HeartRateOff(r2)
    ensures RawScore(user, reports, schedules) == 10 + 2 * CompletedCount(schedules)
  {
  }

  // ---------------------------------------------------------------------
  // Reminder trigger step

  /**
   * `createdToday`: the journal holds an entry for this (sourceId, type)
   * created at or after local midnight. The entry's user is not consulted.
   */
  predicate CreatedToday(journal: seq<Notification>, sourceId: int, kind: string, todayStart: int) {
    exists n :: n in journal && n.sourceId == Some(sourceId) && n.kind == kind && n.createdAt >= todayStart
  }

  /** A reminder before it receives its id, user and creation time. */
  datatype Draft = Draft(title: string, message: string, kind: string, sourceId: int)

  predicate ScheduleDue(s: Schedule, journal: seq<Notification>, currentTime: string, todayStart: int) {
    !s.completed && s.time == currentTime && !CreatedToday(journal, s.id, SCHEDULE_KIND, todayStart)
  }

  predicate MedicineDue(m: Medicine, journal: seq<Notification>, currentTime: string, todayStart: int) {
    m.time == currentTime && !CreatedToday(journal, m.id, MEDICINE_KIND, todayStart)
  }

  function ScheduleDraft(s: Schedule): Draft {
    Draft("Task Reminder", "It's time for: " + s.title, SCHEDULE_KIND, s.id)
  }

  function MedicineDraft(m: Medicine): Draft {
    Draft("Medicine Reminder", "Time for your " + m.name + " (" + m.dosage + ")", MEDICINE_KIND, m.id)
  }

  /** The drafts the `schedules.forEach` pass pushes, in list order. */
  function ScheduleDrafts(journal: seq<Notification>, schedules: seq<Schedule>, currentTime: string, todayStart: int): seq<Draft> {
    if schedules == [] then []
    else
      var last := schedules[|schedules| - 1];
      ScheduleDrafts(journal, schedules[..|schedules| - 1], currentTime, todayStart)
      + (if ScheduleDue(last, journal, currentTime, todayStart) then [ScheduleDraft(last)] else [])
  }

  /** The drafts the `medicines.forEach` pass pushes, in list order. */
  function MedicineDrafts(journal: seq<Notification>, medicines: seq<Medicine>, currentTime: string, todayStart: int): seq<Draft> {
    if medicines == [] then []
    else
      var last := medicines[|medicines| - 1];
      MedicineDrafts(journal, medicines[..|medicines| - 1], currentTime, todayStart)
      + (if MedicineDue(last, journal, currentTime, todayStart) then [MedicineDraft(last)] else [])
  }

  /** The entry a draft becomes at position i of the batch. */
  function StampOne(d: Draft, userId: int, stamp: int, i: int): Notification {
    Notification(stamp + i, userId, d.title, d.message, d.kind, false, stamp, Some(d.sourceId))
  }

  /**
   * `newNotifications.map((n, i) => ({...n, id: Date.now() + i, userId, createdAt}))`:
   * the ids of a batch are pairwise distinct and lie in [stamp, stamp + |drafts|),
   * and each entry keeps its draft's title, message, type and source.
   */
  function Stamp(drafts: seq<Draft>, userId: int, stamp: int): (r: seq<Notification>)
    ensures |r| == |drafts|
    ensures forall i, j :: 0 <= i < j < |r| ==> r[i].id != r[j].id
    ensures forall n :: n in r ==> stamp <= n.id < stamp + |drafts|
    ensures forall i :: 0 <= i < |r| ==>
              && r[i].title == drafts[i].title && r[i].message == drafts[i].message
              && r[i].kind == drafts[i].kind && r[i].sourceId == Some(drafts[i].sourceId)
              && r[i].userId == userId && !r[i].read
  {
    seq(|drafts|, i requires 0 <= i < |drafts| => StampOne(drafts[i], userId, stamp, i))
  }

  /**
   * The entries one `checkReminders` evaluation appends to the journal:
   * nothing when the user id is missing or both lists are empty, otherwise
   * the schedule reminders followed by the medicine reminders.
   */
  function NewReminders(journal: seq<Notification>, userId: Option<int>, schedules: seq<Schedule>,
                        medicines: seq<Medicine>, currentTime: string, todayStart: int, stamp: int): (r: seq<Notification>)
    ensures r != [] ==> Present(userId)
    ensures forall k :: 0 <= k < |r| ==>
              && r[k].userId == userId.value && !r[k].read
              && r[k].id == stamp + k && r[k].createdAt == stamp && r[k].sourceId.Some?
  {
    if !Present(userId) || (|schedules| == 0 && |medicines| == 0) then []
    else Stamp(ScheduleDrafts(journal, schedules, currentTime, todayStart)
               + MedicineDrafts(journal, medicines, currentTime, todayStart), userId.value, stamp)
  }

  /** The two `forEach` passes of `checkReminders`, pushing into `newNotifications`. */
  method CollectReminders(journal: seq<Notification>, schedules: seq<Schedule>, medicines: seq<Medicine>,
                          currentTime: string, todayStart: int) returns (drafts: seq<Draft>)
    ensures drafts == ScheduleDrafts(journal, schedules, currentTime, todayStart)
                      + MedicineDrafts(journal, medicines, currentTime, todayStart)
  {
    drafts := [];
    for i := 0 to |schedules|
      invariant drafts == ScheduleDrafts(journal, schedules[..i], currentTime, todayStart)
    {
      var schedule := schedules[i];
      assert schedules[..i + 1][..i] == schedules[..i];
      if !schedule.completed && schedule.time == currentTime && !CreatedToday(journal, schedule.id, SCHEDULE_KIND, todayStart) {
        drafts := drafts + [ScheduleDraft(schedule)];
      }
    }
    assert schedules[..|schedules|] == schedules;
    ghost var fromSchedules := drafts;
    for i := 0 to |medicines|
      invariant drafts == fromSchedules + MedicineDrafts(journal, medicines[..i], currentTime, todayStart)
    {
      var medicine := medicines[i];
      assert medicines[..i + 1][..i] == medicines[..i];
      if medicine.time == currentTime && !CreatedToday(journal, medicine.id, MEDICINE_KIND, todayStart) {
        drafts := drafts + [MedicineDraft(medicine)];
      }
    }
    assert medicines[..|medicines|] == medicines;
  }

  /**
   * One `checkReminders` evaluation: the journal becomes the old journal
   * followed by the new reminders, and one "notifications-updated" event is
   * dispatched exactly when something was appended.
   */
  method CheckReminders(journal: ReminderJournal, userId: Option<int>, schedules: seq<Schedule>,
                        medicines: seq<Medicine>, currentTime: string, todayStart: int, stamp: int)
    modifies journal
    ensures journal.entries
            == old(journal.entries) + NewReminders(old(journal.entries), userId, schedules, medicines, currentTime, todayStart, stamp)
    ensures journal.broadcasts
            == old(journal.broadcasts)
               + (if NewReminders(old(journal.entries), userId, schedules, medicines, currentTime, todayStart, stamp) == [] then 0 else 1)
  {
    if !Present(userId) || (|schedules| == 0 && |medicines| == 0) {
      return;
    }
    var allNotifications := journal.entries;
    var newNotifications := CollectReminders(allNotifications, schedules, medicines, currentTime, todayStart);
    if |newNotifications| > 0 {
      journal.entries := allNotifications + Stamp(newNotifications, userId.value, stamp);
      journal.broadcasts := journal.broadcasts + 1;
    }
  }

  // ---------------------------------------------------------------------
  // Properties of the reminder step

  /** A schedule yields a reminder exactly when it is pending, due this minute, and not yet reminded today. */
  lemma {:induction false} ScheduleDraftsExactly(journal: seq<Notification>, schedules: seq<Schedule>, currentTime: string, todayStart: int)
    ensures forall d :: d in ScheduleDrafts(journal, schedules, currentTime, todayStart)
              <==> exists s :: s in schedules && ScheduleDue(s, journal, currentTime, todayStart) && d == ScheduleDraft(s)
  {
    if schedules != [] {
      var init := schedules[..|schedules| - 1];
      ScheduleDraftsExactly(journal, init, currentTime, todayStart);
      assert schedules == init + [schedules[|schedules| - 1]];
    }
  }

  /** A medicine yields a reminder exactly when it is due this minute and not yet reminded today; completion plays no part. */
  lemma {:induction false} MedicineDraftsExactly(journal: seq<Notification>, medicines: seq<Medicine>, currentTime: string, todayStart: int)
    ensures forall d :: d in MedicineDrafts(journal, medicines, currentTime, todayStart)
              <==> exists m :: m in medicines && MedicineDue(m, journal, currentTime, todayStart) && d == MedicineDraft(m)
  {
    if medicines != [] {
      var init := medicines[..|medicines| - 1];
      MedicineDraftsExactly(journal, init, currentTime, todayStart);
      assert medicines == init + [medicines[|medicines| - 1]];
    }
  }

  /** Every draft of a pass is about an item that had no entry of its kind today. */
  lemma DraftsNotCreatedToday(journal: seq<Notification>, schedules: seq<Schedule>, medicines: seq<Medicine>,
                              currentTime: string, todayStart: int, d: Draft)
    requires d in ScheduleDrafts(journal, schedules, currentTime, todayStart)
             + MedicineDrafts(journal, medicines, currentTime, todayStart)
    ensures d.kind == SCHEDULE_KIND || d.kind == MEDICINE_KIND
    ensures !CreatedToday(journal, d.sourceId, d.kind, todayStart)
  {
    ScheduleDraftsExactly(journal, schedules, currentTime, todayStart);
    MedicineDraftsExactly(journal, medicines, currentTime, todayStart);
  }

  /** An entry of the batch is a stamped draft of the batch. */
  lemma NewReminderFromDraft(journal: seq<Notification>, userId: Option<int>, schedules: seq<Schedule>,
                             medicines: seq<Medicine>, currentTime: string, todayStart: int, stamp: int, e: Notification)
    requires e in NewReminders(journal, userId, schedules, medicines, currentTime, todayStart, stamp)
    ensures exists d :: d in ScheduleDrafts(journal, schedules, currentTime, todayStart)
                         + MedicineDrafts(journal, medicines, currentTime, todayStart)
                       && e.sourceId == Some(d.sourceId) && e.kind == d.kind
  {
    var drafts := ScheduleDrafts(journal, schedules, currentTime, todayStart)
                  + MedicineDrafts(journal, medicines, currentTime, todayStart);
    var r := NewReminders(journal, userId, schedules, medicines, currentTime, todayStart, stamp);
    var k :| 0 <= k < |r| && r[k] == e;
    assert e == StampOne(drafts[k], userId.value, stamp, k);
    assert drafts[k] in drafts;
  }

  /**
   * Idempotence within a day: an evaluation run over the journal the first
   * one wrote, with the same lists and in the same minute, appends nothing.
   */
  lemma SecondRunAddsNothing(journal: seq<Notification>, userId: Option<int>, schedules: seq<Schedule>,
                             medicines: seq<Medicine>, currentTime: string, todayStart: int, stamp: int, stamp2: int)
    requires stamp >= todayStart
    ensures var after := journal + NewReminders(journal, userId, schedules, medicines, currentTime, todayStart, stamp);
            NewReminders(after, userId, schedules, medicines, currentTime, todayStart, stamp2) == []
  {
    var batch := NewReminders(journal, userId, schedules, medicines, currentTime, todayStart, stamp);
    var after := journal + batch;
    if Present(userId) && (|schedules| > 0 || |medicines| > 0) {
      var drafts := ScheduleDrafts(journal, schedules, currentTime, todayStart) + MedicineDrafts(journal, medicines, currentTime, todayStart);
      assert batch == Stamp(drafts, userId.value, stamp);
      ScheduleDraftsExactly(journal, schedules, currentTime, todayStart);
      MedicineDraftsExactly(journal, medicines, currentTime, todayStart);
      ScheduleDraftsExactly(after, schedules, currentTime, todayStart);
      MedicineDraftsExactly(after, medicines, currentTime, todayStart);
      forall s | s in schedules
        ensures CreatedToday(after, s.id, SCHEDULE_KIND, todayStart) || !ScheduleDue(s, after, currentTime, todayStart)
      {
        if ScheduleDue(s, journal, currentTime, todayStart) {
          assert ScheduleDraft(s) in drafts;
          var k :| 0 <= k < |drafts| && drafts[k] == ScheduleDraft(s);
          assert batch[k] == StampOne(ScheduleDraft(s), userId.value, stamp, k);
          assert batch[k] in after;
        } else if CreatedToday(journal, s.id, SCHEDULE_KIND, todayStart) {
          var n :| n in journal && n.sourceId == Some(s.id) && n.kind == SCHEDULE_KIND && n.createdAt >= todayStart;
          assert n in after;
        }
      }
      forall m | m in medicines
        ensures CreatedToday(after, m.id, MEDICINE_KIND, todayStart) || !MedicineDue(m, after, currentTime, todayStart)
      {
        if MedicineDue(m, journal, currentTime, todayStart) {
          assert MedicineDraft(m) in drafts;
          var k :| 0 <= k < |drafts| && drafts[k] == MedicineDraft(m);
          assert batch[k] == StampOne(MedicineDraft(m), userId.value, stamp, k);
          assert batch[k] in after;
        } else if CreatedToday(journal, m.id, MEDICINE_KIND, todayStart) {
          var n :| n in journal && n.sourceId == Some(m.id) && n.kind == MEDICINE_KIND && n.createdAt >= todayStart;
          assert n in after;
        }
      }
      var sd2 := ScheduleDrafts(after, schedules, currentTime, todayStart);
      var md2 := MedicineDrafts(after, medicines, currentTime, todayStart);
      NothingDueNoDrafts(after, schedules, medicines, currentTime, todayStart);
    }
  }

  /** When no item of either list is due, the two passes push nothing. */
  lemma {:induction false} NothingDueNoDrafts(journal: seq<Notification>, schedules: seq<Schedule>, medicines: seq<Medicine>,
                                              currentTime: string, todayStart: int)
    requires forall s :: s in schedules ==> !ScheduleDue(s, journal, currentTime, todayStart)
    requires forall m :: m in medicines ==> !MedicineDue(m, journal, currentTime, todayStart)
    ensures ScheduleDrafts(journal, schedules, currentTime, todayStart) == []
    ensures MedicineDrafts(journal, medicines, currentTime, todayStart) == []
    decreases |schedules| + |medicines|
  {
    if schedules != [] {
      NothingDueNoDrafts(journal, schedules[..|schedules| - 1], [], currentTime, todayStart);
      assert schedules[|schedules| - 1] in schedules;
    }
    if medicines != [] {
      NothingDueNoDrafts(journal, [], medicines[..|medicines| - 1], currentTime, todayStart);
      assert medicines[|medicines| - 1] in medicines;
    }
  }

  /**
   * No catch-up and no repeat: whatever a later evaluation on the same day
   * appends (any minute, any lists), it never repeats a (sourceId, type)
   * pair the first evaluation appended.
   */
  lemma LaterRunNeverRepeats(journal: seq<Notification>, userId: Option<int>, schedules: seq<Schedule>,
                             medicines: seq<Medicine>, currentTime: string, todayStart: int, stamp: int,
                             userId2: Option<int>, schedules2: seq<Schedule>, medicines2: seq<Medicine>,
                             currentTime2: string, stamp2: int, e: Notification, e2: Notification)
    requires stamp >= todayStart
    requires e in NewReminders(journal, userId, schedules, medicines, currentTime, todayStart, stamp)
    requires e2 in NewReminders(journal + NewReminders(journal, userId, schedules, medicines, currentTime, todayStart, stamp),
                                userId2, schedules2, medicines2, currentTime2, todayStart, stamp2)
    ensures e.sourceId != e2.sourceId || e.kind != e2.kind
  {
    var after := journal + NewReminders(journal, userId, schedules, medicines, currentTime, todayStart, stamp);
    NewReminderFromDraft(after, userId2, schedules2, medicines2, currentTime2, todayStart, stamp2, e2);
    var d2 :| d2 in ScheduleDrafts(after, schedules2, currentTime2, todayStart) + MedicineDrafts(after, medicines2, currentTime2, todayStart)
              && e2.sourceId == Some(d2.sourceId) && e2.kind == d2.kind;
    DraftsNotCreatedToday(after, schedules2, medicines2, currentTime2, todayStart, d2);
    assert e in after;
  }

  /** Deduplication is keyed on (sourceId, type, day) only: another user's entry for the item suppresses the reminder too. */
  lemma AnyUsersEntrySuppresses(journal: seq<Notification>, schedules: seq<Schedule>, medicines: seq<Medicine>,
                                currentTime: string, todayStart: int, n: Notification, d: Draft)
    requires n in journal && n.createdAt >= todayStart && n.sourceId.Some?
    requires d in ScheduleDrafts(journal, schedules, currentTime, todayStart)
             + MedicineDrafts(journal, medicines, currentTime, todayStart)
    ensures n.sourceId != Some(d.sourceId) || n.kind != d.kind
  {
    DraftsNotCreatedToday(journal, schedules, medicines, currentTime, todayStart, d);
  }

  /** The journal holds at most one entry per (sourceId, type) among the entries created since `todayStart`. */
  ghost predicate OncePerDay(journal: seq<Notification>, todayStart: int) {
    forall i, j :: 0 <= i < j < |journal| && journal[i].createdAt >= todayStart && journal[j].createdAt >= todayStart
                   && journal[i].sourceId.Some? && journal[i].kind == journal[j].kind
                   ==> journal[i].sourceId != journal[j].sourceId
  }

  ghost predicate DistinctScheduleIds(schedules: seq<Schedule>) {
    forall i, j :: 0 <= i < j < |schedules| ==> schedules[i].id != schedules[j].id
  }

  ghost predicate DistinctMedicineIds(medicines: seq<Medicine>) {
    forall i, j :: 0 <= i < j < |medicines| ==> medicines[i].id != medicines[j].id
  }

  ghost predicate DistinctSources(drafts: seq<Draft>) {
    forall i, j :: 0 <= i < j < |drafts| && drafts[i].kind == drafts[j].kind ==> drafts[i].sourceId != drafts[j].sourceId
  }

  lemma {:induction false} ScheduleDraftsDistinct(journal: seq<Notification>, schedules: seq<Schedule>, currentTime: string, todayStart: int)
    requires DistinctScheduleIds(schedules)
    ensures DistinctSources(ScheduleDrafts(journal, schedules, currentTime, todayStart))
  {
    if schedules != [] {
      var init := schedules[..|schedules| - 1];
      var last := schedules[|schedules| - 1];
      ScheduleDraftsDistinct(journal, init, currentTime, todayStart);
      ScheduleDraftsExactly(journal, init, currentTime, todayStart);
      var prev := ScheduleDrafts(journal, init, currentTime, todayStart);
      forall k | 0 <= k < |prev|
        ensures prev[k].sourceId != last.id
      {
        assert prev[k] in prev;
        var s :| s in init && ScheduleDue(s, journal, currentTime, todayStart) && prev[k] == ScheduleDraft(s);
        var j :| 0 <= j < |init| && init[j] == s;
        assert schedules[j] == s;
      }
    }
  }

  lemma {:induction false} MedicineDraftsDistinct(journal: seq<Notification>, medicines: seq<Medicine>, currentTime: string, todayStart: int)
    requires DistinctMedicineIds(medicines)
    ensures DistinctSources(MedicineDrafts(journal, medicines, currentTime, todayStart))
  {
    if medicines != [] {
      var init := medicines[..|medicines| - 1];
      var last := medicines[|medicines| - 1];
      MedicineDraftsDistinct(journal, init, currentTime, todayStart);
      MedicineDraftsExactly(journal, init, currentTime, todayStart);
      var prev := MedicineDrafts(journal, init, currentTime, todayStart);
      forall k | 0 <= k < |prev|
        ensures prev[k].sourceId != last.id
      {
        assert prev[k] in prev;
        var m :| m in init && MedicineDue(m, journal, currentTime, todayStart) && prev[k] == MedicineDraft(m);
        var j :| 0 <= j < |init| && init[j] == m;
        assert medicines[j] == m;
      }
    }
  }

  /** A journal entry is a reminder of this kind about this item. */
  predicate RemindsOf(n: Notification, sourceId: int, kind: string) {
    n.sourceId == Some(sourceId) && n.kind == kind
  }

  /**
   * A schedule that is due gets a reminder in the evaluation's batch, with
   * its title and message; with distinct schedule ids it gets exactly one.
   */
  lemma DueScheduleIsReminded(journal: seq<Notification>, userId: Option<int>, schedules: seq<Schedule>,
                              medicines: seq<Medicine>, currentTime: string, todayStart: int, stamp: int, s: Schedule)
    requires Present(userId) && s in schedules && ScheduleDue(s, journal, currentTime, todayStart)
    ensures var r := NewReminders(journal, userId, schedules, medicines, currentTime, todayStart, stamp);
      exists k :: 0 <= k < |r| && RemindsOf(r[k], s.id, SCHEDULE_KIND)
                  && r[k].title == "Task Reminder" && r[k].message == "It's time for: " + s.title
    ensures var r := NewReminders(journal, userId, schedules, medicines, currentTime, todayStart, stamp);
      DistinctScheduleIds(schedules) ==>
        forall k, k' ::
          (0 <= k < |r| && 0 <= k' < |r| && RemindsOf(r[k], s.id, SCHEDULE_KIND) && RemindsOf(r[k'], s.id, SCHEDULE_KIND))
          ==> k == k'
  {
    var sd := ScheduleDrafts(journal, schedules, currentTime, todayStart);
    var md := MedicineDrafts(journal, medicines, currentTime, todayStart);
    var r := NewReminders(journal, userId, schedules, medicines, currentTime, todayStart, stamp);
    assert r == Stamp(sd + md, userId.value, stamp);
    ScheduleDraftsExactly(journal, schedules, currentTime, todayStart);
    assert ScheduleDraft(s) in sd;
    var k :| 0 <= k < |sd| && sd[k] == ScheduleDraft(s);
    assert (sd + md)[k] == sd[k];
    assert RemindsOf(r[k], s.id, SCHEDULE_KIND);
    if DistinctScheduleIds(schedules) {
      ScheduleDraftsDistinct(journal, schedules, currentTime, todayStart);
      MedicineDraftsExactly(journal, medicines, currentTime, todayStart);
      forall i | |sd| <= i < |r|
        ensures r[i].kind == MEDICINE_KIND
      {
        assert (sd + md)[i] == md[i - |sd|] && md[i - |sd|] in md;
      }
      forall i | 0 <= i < |sd|
        ensures r[i].sourceId == Some(sd[i].sourceId) && r[i].kind == sd[i].kind
      {
        assert (sd + md)[i] == sd[i];
      }
      assert SCHEDULE_KIND != MEDICINE_KIND by {
        assert SCHEDULE_KIND[0] != MEDICINE_KIND[0];
      }
    }
  }

  /**
   * A medicine that is due gets a reminder in the evaluation's batch, with
   * its title and message; with distinct medicine ids it gets exactly one.
   */
  lemma DueMedicineIsReminded(journal: seq<Notification>, userId: Option<int>, schedules: seq<Schedule>,
                              medicines: seq<Medicine>, currentTime: string, todayStart: int, stamp: int, m: Medicine)
    requires Present(userId) && m in medicines && MedicineDue(m, journal, currentTime, todayStart)
    ensures var r := NewReminders(journal, userId, schedules, medicines, currentTime, todayStart, stamp);
      exists k :: 0 <= k < |r| && RemindsOf(r[k], m.id, MEDICINE_KIND)
                  && r[k].title == "Medicine Reminder" && r[k].message == "Time for your " + m.name + " (" + m.dosage + ")"
    ensures var r := NewReminders(journal, userId, schedules, medicines, currentTime, todayStart, stamp);
      DistinctMedicineIds(medicines) ==>
        forall k, k' ::
          (0 <= k < |r| && 0 <= k' < |r| && RemindsOf(r[k], m.id, MEDICINE_KIND) && RemindsOf(r[k'], m.id, MEDICINE_KIND))
          ==> k == k'
  {
    var sd := ScheduleDrafts(journal, schedules, currentTime, todayStart);
    var md := MedicineDrafts(journal, medicines, currentTime, todayStart);
    var r := NewReminders(journal, userId, schedules, medicines, currentTime, todayStart, stamp);
    assert r == Stamp(sd + md, userId.value, stamp);
    MedicineDraftsExactly(journal, medicines, currentTime, todayStart);
    assert MedicineDraft(m) in md;
    var j :| 0 <= j < |md| && md[j] == MedicineDraft(m);
    assert (sd + md)[|sd| + j] == md[j];
    assert RemindsOf(r[|sd| + j], m.id, MEDICINE_KIND);
    if DistinctMedicineIds(medicines) {
      MedicineDraftsDistinct(journal, medicines, currentTime, todayStart);
      ScheduleDraftsExactly(journal, schedules, currentTime, todayStart);
      forall i | 0 <= i < |sd|
        ensures r[i].kind == SCHEDULE_KIND
      {
        assert (sd + md)[i] == sd[i] && sd[i] in sd;
      }
      forall i | |sd| <= i < |r|
        ensures r[i].sourceId == Some(md[i - |sd|].sourceId) && r[i].kind == md[i - |sd|].kind
      {
        assert (sd + md)[i] == md[i - |sd|];
      }
      assert SCHEDULE_KIND != MEDICINE_KIND by {
        assert SCHEDULE_KIND[0] != MEDICINE_KIND[0];
      }
    }
  }

  /**
   * The journal invariant "at most one reminder per item per day" is kept by
   * every evaluation, provided the item ids within each list are distinct.
   */
  lemma CheckRemindersKeepsOncePerDay(journal: seq<Notification>, userId: Option<int>, schedules: seq<Schedule>,
                                      medicines: seq<Medicine>, currentTime: string, todayStart: int, stamp: int)
    requires OncePerDay(journal, todayStart)
    requires DistinctScheduleIds(schedules) && DistinctMedicineIds(medicines)
    ensures OncePerDay(journal + NewReminders(journal, userId, schedules, medicines, currentTime, todayStart, stamp), todayStart)
  {
    var batch := NewReminders(journal, userId, schedules, medicines, currentTime, todayStart, stamp);
    if batch != [] {
      var sd := ScheduleDrafts(journal, schedules, currentTime, todayStart);
      var md := MedicineDrafts(journal, medicines, currentTime, todayStart);
      var drafts := sd + md;
      ScheduleDraftsDistinct(journal, schedules, currentTime, todayStart);
      MedicineDraftsDistinct(journal, medicines, currentTime, todayStart);
      ScheduleDraftsExactly(journal, schedules, currentTime, todayStart);
      MedicineDraftsExactly(journal, medicines, currentTime, todayStart);
      assert forall k :: 0 <= k < |sd| ==> sd[k].kind == SCHEDULE_KIND by {
        forall k | 0 <= k < |sd| ensures sd[k].kind == SCHEDULE_KIND {
          assert sd[k] in sd;
        }
      }
      assert forall k :: 0 <= k < |md| ==> md[k].kind == MEDICINE_KIND by {
        forall k | 0 <= k < |md| ensures md[k].kind == MEDICINE_KIND {
          assert md[k] in md;
        }
      }
      assert DistinctSources(drafts) by {
        forall i, j | 0 <= i < j < |drafts| && drafts[i].kind == drafts[j].kind
          ensures drafts[i].sourceId != drafts[j].sourceId
        {
          if j < |sd| {
            assert drafts[i] == sd[i] && drafts[j] == sd[j];
          }
          if i >= |sd| {
            assert drafts[i] == md[i - |sd|] && drafts[j] == md[j - |sd|];
          }
        }
      }
      var all := journal + batch;
      forall i, j | 0 <= i < j < |all| && all[i].createdAt >= todayStart && all[j].createdAt >= todayStart
                    && all[i].sourceId.Some? && all[i].kind == all[j].kind
        ensures all[i].sourceId != all[j].sourceId
      {
        if j >= |journal| {
          var dj := drafts[j - |journal|];
          assert all[j] == StampOne(dj, userId.value, stamp, j - |journal|);
          if i < |journal| {
            assert dj in drafts;
            DraftsNotCreatedToday(journal, schedules, medicines, currentTime, todayStart, dj);
            assert all[i] in journal;
          } else {
            var di := drafts[i - |journal|];
            assert all[i] == StampOne(di, userId.value, stamp, i - |journal|);
          }
        }
      }
    }
  }
}
