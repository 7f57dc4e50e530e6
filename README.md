# Swaasth Buddy reminder and contact logic, modelled in Dafny

This project models the logic core of the Swaasth Buddy health-reminder
app, a React client with an Express server.

- **Reminder journal.** The dashboard's `checkReminders` step appends
  "schedule" and "medicine" reminders to a journal in localStorage. It
  fires at most once per item per day, and only in the item's exact
  minute.
- **Health score.** The dashboard's score is clamped to 0..100.
- **Notification feed.** The notification hook merges server and local
  entries, de-duplicates them by id with the last entry winning, sorts
  them newest first and counts the unread ones.
- **Drop-down.** The notification drop-down marks entries read and
  buckets their age for display.
- **Server rules.** These cover the blood-pressure alarm, the validation
  of emergency-contact requests (in each handler's order), the
  replacement of a user's contact rows and the mail fan-out.
- **Contact form.** The client's emergency-contact form drops blank
  fields and refuses duplicates.
- **Key-value store.** The prefixed `LocalStorage` store wraps values in
  timestamped envelopes and expires them on read.
- **Sign-in session.** The signed-in user is kept in one of two browser
  stores, and lookups try the local store first.
- **Onboarding wizard.** It has a step counter from 1 to 4 and a list of
  health conditions that can be checked and unchecked.

Modules, one file each:

| file | module | what it holds |
|---|---|---|
| wrappers.dfy | Wrappers | `Option`, `Result` |
| schema.dfy | Schema | the records: users, schedules, medicines, reports, notifications, contacts |
| unique.dfy | Unique | `Distinct`, set size, and filtering out one value (`Without`) or a list of values (`Outside`) |
| text.dfy | Text | digits, `toString`, `split`/`join`, `trim`, and the integer forms of `Number` and `parseInt` |
| journal.dfy | Journal | class `ReminderJournal`: the journal array in localStorage and its update events |
| dashboard.dfy | Dashboard | pending filter, health score, `createdToday`, `checkReminders` |
| feed.dfy | Feed | the `useNotifications` merge, sort and unread count |
| dropdown.dfy | Dropdown | mark-all-read, `getTimeAgo`, `getNotificationIcon` |
| routes.dfy | Routes | `isAbnormal`, the email pattern, contact validation, contact replacement, mail fan-out, class `Server` |
| contact_form.dfy | ContactForm | the form schema and `onSubmit` |
| web_storage.dfy | WebStorage | class `Store`: a browser Storage object (ordered keys plus a map) |
| local_storage.dfy | LocalStore | class `LocalStorage` over a `Store` |
| auth.dfy | Auth | the two-store session functions |
| onboarding.dfy | Onboarding | class `Wizard`: `currentStep` and `formData` |

Clocks are integer parameters in milliseconds:

- `now`, `stamp`: the current time;
- `todayStart`: local midnight;
- `currentTime`: the "HH:mm" text of the current minute;
- `clock`: the text printed in mails.

Mail delivery is a recorded outbox. The addresses whose send fails are a
parameter `failing`. zod's email validator is a parameter `isEmail`. The
server's bulk "mark read" answer is a parameter `serverAccepts`.

## Model

| member | source | states |
|---|---|---|
| Dashboard.TodaySchedules | client/src/pages/dashboard.tsx:74 | the pending list holds exactly the schedules that are not completed |
| Dashboard.PendingPlusCompleted | client/src/pages/dashboard.tsx:74-83 | pending plus completed schedules number all schedules |
| Dashboard.Clamp | client/src/pages/dashboard.tsx:84 | the clamped score lies in 0..100: a score in range is kept, one above 100 becomes 100 and one below 0 becomes 0 |
| Dashboard.HealthScore | client/src/pages/dashboard.tsx:77-86 | "--" (None) exactly when there is no user or no report; otherwise a score in 10..100 |
| Dashboard.RawScore | client/src/pages/dashboard.tsx:79-83 | the unclamped score: 50, minus 10 for age over 60, minus 15 for a high systolic reading, minus 15 for an abnormal heart rate, plus 2 per completed schedule; `LowerClampUnreachable` bounds it |
| Dashboard.HealthScoreLabel | client/src/pages/dashboard.tsx:78-85 | the label is "--" exactly when there is no user or no report; otherwise it ends with "%" and `parseInt` reads the score back from it |
| Dashboard.LowerClampUnreachable | client/src/pages/dashboard.tsx:79-83 | the penalties total at most 40, so the unclamped score is at least 10 |
| Dashboard.CompletingRaisesScore | client/src/pages/dashboard.tsx:83-84 | one more completed schedule never lowers the score |
| Dashboard.WorstCaseScore | client/src/pages/dashboard.tsx:79-84 | a user over 60 with a high systolic reading and an abnormal heart rate scores 10 plus 2 per completed schedule, capped at 100; exactly 10 with no completed schedule |
| Dashboard.Stamp | client/src/pages/dashboard.tsx:149-156 | one entry per draft, in order: each keeps its draft's title, message, type and source id, is unread and belongs to the user; the ids are pairwise distinct and lie in stamp..stamp+n-1 |
| Dashboard.NewReminders | client/src/pages/dashboard.tsx:96-157 | new entries exist only with a user id; each is unread, belongs to that user, has id stamp+k and a source id |
| Dashboard.DueScheduleIsReminded | client/src/pages/dashboard.tsx:120-157 | with a user id, every due schedule gets a "Task Reminder" entry with its title in the batch; with distinct schedule ids exactly one |
| Dashboard.DueMedicineIsReminded | client/src/pages/dashboard.tsx:134-157 | with a user id, every due medicine gets a "Medicine Reminder" entry with its name and dosage in the batch; with distinct medicine ids exactly one |
| Dashboard.CreatedToday | client/src/pages/dashboard.tsx:109-116 | some journal entry, of any user, has the item's source id and type and was created since midnight; `AnyUsersEntrySuppresses` and `DraftsNotCreatedToday` state its role |
| Dashboard.ScheduleDrafts | client/src/pages/dashboard.tsx:120-132 | the schedule pass; `ScheduleDraftsExactly` states which schedules yield a draft and `ScheduleDraftsDistinct` that source ids stay distinct |
| Dashboard.MedicineDrafts | client/src/pages/dashboard.tsx:134-146 | the medicine pass; `MedicineDraftsExactly` states which medicines yield a draft and `MedicineDraftsDistinct` that source ids stay distinct |
| Dashboard.CollectReminders | client/src/pages/dashboard.tsx:118-146 | the two forEach passes push the due schedule drafts, then the due medicine drafts, each in list order |
| Dashboard.CheckReminders | client/src/pages/dashboard.tsx:95-162 | the journal becomes the old journal followed by the new reminders; one event is dispatched exactly when something was appended |
| Dashboard.ScheduleDraftsExactly | client/src/pages/dashboard.tsx:120-121 | a schedule yields a draft iff it is not completed, its time equals the current minute, and it was not reminded today |
| Dashboard.MedicineDraftsExactly | client/src/pages/dashboard.tsx:134-135 | a medicine yields a draft iff its time equals the current minute and it was not reminded today; completion plays no part |
| Dashboard.DraftsNotCreatedToday | client/src/pages/dashboard.tsx:109-135 | every draft has type schedule or medicine, and its item has no entry of that type since midnight |
| Dashboard.NewReminderFromDraft | client/src/pages/dashboard.tsx:149-156 | each appended entry comes from a draft of one of the two passes |
| Dashboard.SecondRunAddsNothing | client/src/pages/dashboard.tsx:109-135 | a second evaluation in the same minute, over the journal the first one wrote, appends nothing |
| Dashboard.NothingDueNoDrafts | client/src/pages/dashboard.tsx:120-146 | when no item is due, neither pass pushes a draft |
| Dashboard.LaterRunNeverRepeats | client/src/pages/dashboard.tsx:109-116 | a later evaluation on the same day, at any minute and with any lists, never repeats a (sourceId, type) the first one appended |
| Dashboard.AnyUsersEntrySuppresses | client/src/pages/dashboard.tsx:110-115 | an entry since midnight for the item suppresses the reminder, whichever user it belongs to |
| Dashboard.ScheduleDraftsDistinct | client/src/pages/dashboard.tsx:120-132 | with distinct schedule ids, the schedule drafts have distinct source ids |
| Dashboard.MedicineDraftsDistinct | client/src/pages/dashboard.tsx:134-146 | with distinct medicine ids, the medicine drafts have distinct source ids |
| Dashboard.CheckRemindersKeepsOncePerDay | client/src/pages/dashboard.tsx:95-162 | "at most one entry per (sourceId, type) since midnight" is preserved by every evaluation |
| Feed.LocalFor | client/src/hooks/use-notifications.ts:31-37 | the local entries are exactly the journal entries of the current user, and none without a user id |
| Feed.ApiFor | client/src/hooks/use-notifications.ts:14-22 | the API list is fetched only with a user id and is empty without one; `FeedIds` and `FeedProvenance` use it |
| Feed.MapValues | client/src/hooks/use-notifications.ts:58 | `new Map(combined.map(n => [n.id, n])).values()`; `MapValuesSpec`, `MapValuesIds` and `MapValuesLength` state what it yields |
| Feed.LastWith | client/src/hooks/use-notifications.ts:58 | an entry is found for an id iff the list holds that id; it is an entry of the list with that id |
| Feed.FirstIdsMembers | client/src/hooks/use-notifications.ts:58 | the first-occurrence id list holds exactly the ids of the input, each once |
| Feed.MapValuesSpec | client/src/hooks/use-notifications.ts:58 | the Map fold yields one entry per distinct id, in first-occurrence order, each equal to the last entry with that id |
| Feed.MapValuesIds | client/src/hooks/use-notifications.ts:58 | the merge has pairwise distinct ids, exactly the input's ids, and each kept entry is the last entry with its id |
| Feed.MapValuesLength | client/src/hooks/use-notifications.ts:58 | the merge's length is the number of distinct ids |
| Feed.LaterSourceWins | client/src/hooks/use-notifications.ts:57-58 | on an id collision the entry of the later source wins |
| Feed.FirstIdsKnown | client/src/hooks/use-notifications.ts:57-58 | appending entries whose ids are already present adds no id and changes no position |
| Feed.SelfMerge | client/src/hooks/use-notifications.ts:57-58 | merging a list with a copy of itself gives that list's merge |
| Feed.InsertByTime | client/src/hooks/use-notifications.ts:59-61 | insertion adds exactly the new entry (as a multiset) |
| Feed.InsertSorted | client/src/hooks/use-notifications.ts:59-61 | insertion keeps a list newest first |
| Feed.SortNewest | client/src/hooks/use-notifications.ts:59-61 | the sorted list is newest first and a permutation of the input |
| Feed.SortIds | client/src/hooks/use-notifications.ts:59-61 | sorting keeps exactly the ids, and keeps distinct ids distinct |
| Feed.UnreadCountBounds | client/src/hooks/use-notifications.ts:64 | the unread count is at most the length, and 0 iff every entry is read |
| Feed.UnreadCount | client/src/hooks/use-notifications.ts:64 | the number of unread entries; `UnreadCountBounds` and `UnreadSort` state its properties |
| Feed.UnreadSort | client/src/hooks/use-notifications.ts:59-64 | sorting does not change the unread count |
| Feed.FeedIds | client/src/hooks/use-notifications.ts:57-61 | the feed has distinct ids, exactly the ids of both sources, and as many entries as there are distinct ids |
| Feed.Notifications | client/src/hooks/use-notifications.ts:57-61 | the merged, de-duplicated, newest-first feed; `FeedIds`, `FeedProvenance` and `FeedUnread` state its properties |
| Feed.FeedProvenance | client/src/hooks/use-notifications.ts:36-58 | every feed entry comes from a source and is the last with its id; on a collision the current user's local entry wins |
| Feed.FeedUnread | client/src/hooks/use-notifications.ts:57-64 | the badge counts the unread merged entries and never exceeds the feed length |
| Dropdown.MarkRead | client/src/components/notifications/notification-dropdown.tsx:34-36 | same length and order; the user's entries become read, only `read` changes, other users' entries are untouched |
| Dropdown.MarkReadIdempotent | client/src/components/notifications/notification-dropdown.tsx:34-36 | marking twice equals marking once |
| Dropdown.MarkReadClearsLocalUnread | client/src/components/notifications/notification-dropdown.tsx:34-37 | after the rewrite, the user's local part of the feed has no unread entry |
| Dropdown.MarkAllRead | client/src/components/notifications/notification-dropdown.tsx:24-41 | the bulk update is requested exactly when a user id exists; a rejected request leaves the journal untouched; otherwise the journal is rewritten and the event dispatched |
| Dropdown.ElapsedMinutes | client/src/components/notifications/notification-dropdown.tsx:73 | the floor of the elapsed milliseconds divided by 60000 |
| Dropdown.Bucket | client/src/components/notifications/notification-dropdown.tsx:75-81 | minutes below 60; hours (floor d/60, 1..23) below 1440; otherwise days (floor d/1440, at least 1) |
| Dropdown.TimeAgo | client/src/components/notifications/notification-dropdown.tsx:71-82 | the label reads back with parseInt as the bucket's count and ends with the bucket's unit words |
| Dropdown.BucketMonotone | client/src/components/notifications/notification-dropdown.tsx:75-81 | a later reading never shows a smaller unit or a smaller count in the same unit |
| Dropdown.NotificationIcon | client/src/components/notifications/notification-dropdown.tsx:58-69 | each of "medicine", "appointment" and "tip" gets its own icon; every other type gets the default |
| Dropdown.ReminderIcons | client/src/components/notifications/notification-dropdown.tsx:58-69 | schedule reminders get the default icon and medicine reminders the pill |
| Routes.IsAbnormalReading | server/routes.ts:58-65 | on a reading "x/y" the alarm fires iff x > 140 or y > 90 |
| Routes.IsAbnormal | server/routes.ts:58-65 | `isAbnormal`: a non-empty reading whose `Number` parts exceed 140 or 90; `IsAbnormalReading` and `IsAbnormalSystolicOnly` state when it fires |
| Routes.IsAbnormalSystolicOnly | server/routes.ts:58-65 | a reading with no diastolic part fires iff the systolic value exceeds 140 |
| Routes.BoundaryIsNormal | server/routes.ts:61 | 140/90 exactly is normal |
| Routes.HighReadingIsAbnormal | server/routes.ts:61 | 150/95 raises the alarm |
| Routes.UploadNeverAlerts | server/routes.ts:356-368 | the fixed "120/80" reading of the upload route never raises the alarm |
| Routes.IndexOf | server/routes.ts:501 | the first position of a character, or the length when it is absent |
| Routes.EmailOk | server/routes.ts:501 | the email pattern as a check on one string; `EmailOkMatchesPattern` proves it equal to the pattern |
| Routes.EmailOkMatchesPattern | server/routes.ts:501 | the check accepts exactly the strings `run@run.run` of the pattern, where a run is a non-empty text without white space or '@' |
| Routes.EmailOkIsPattern | server/routes.ts:501 | every accepted string matches the pattern |
| Routes.PatternIsEmailOk | server/routes.ts:501 | every string matching the pattern is accepted |
| Routes.FirstInvalid | server/routes.ts:502-506 | the first email in list order that the pattern rejects; every earlier one is accepted |
| Routes.CheckEmails | server/routes.ts:496-506 | "not unique" iff there is a duplicate; no error iff distinct and all well formed; otherwise the first malformed email is named |
| Routes.ValidatePost | server/routes.ts:490-506 | the POST errors in order: emails, then user id, then uniqueness, then "Invalid email format" naming the first malformed email; no error iff all checks pass |
| Routes.ValidatePatch | server/routes.ts:543-559 | the PATCH errors in order: user id, then emails, then uniqueness, then "Invalid email format" naming the first malformed email; no error iff all checks pass |
| Routes.PostPatchPrecedence | server/routes.ts:540-548 | the handlers disagree iff both the emails and the user id are missing |
| Routes.ContactsOfMembers | server/routes.ts:643 | a user's contacts are exactly the rows with that user id |
| Routes.OtherUsersMembers | server/routes.ts:513 | the deletion keeps exactly the other users' rows |
| Routes.ContactsOf | server/routes.ts:643 | the model's table query (select-by-user, in insertion order), standing in for `getEmergencyContactsByUserId`, which server/storage.ts does not define; `ContactsOfMembers` states its members |
| Routes.Replace | server/routes.ts:513-521 | the table after deleting the user's rows and adding one row per email; `ReplaceContacts` and `ReplaceKeepsOthers` state its effect |
| Routes.ReplaceContacts | server/routes.ts:513-521 | after the replacement the user's contacts are exactly the submitted emails, in order |
| Routes.ReplaceKeepsOthers | server/routes.ts:513-521 | the replacement leaves every other user's contacts as they were |
| Routes.MailsSpec | server/routes.ts:20-46 | each mail goes to a listed, working address with the given or default subject; each working address gets one; with no failures the mails follow the list one for one |
| Routes.Mails | server/routes.ts:20-46 | the mails the loop sends, skipping failed addresses; `MailsSpec` and `MailsAppend` state what it sends |
| Routes.MailsAppend | server/routes.ts:24-46 | a failed address does not stop the rest: sending a+b sends a's mails, then b's |
| Routes.ReportLinkNamesReport | server/routes.ts:646 | the report number reads back from the download link |
| Routes.ReportMailsReachContacts | server/routes.ts:643-658 | a report mail reaches only the owner's contact addresses, with the report subject; with no failures there is one per contact |
| Routes.Server.SendNotifications | server/routes.ts:20-46 | the outbox gains exactly the batch's mails; the tables are unchanged |
| Routes.Server.SendToContacts | server/routes.ts:656-658 | one single-address batch per contact of the user, in table order |
| Routes.Server.NotifyEmergencyContacts | server/routes.ts:68-75 | nothing is sent for an unknown user; otherwise one mail per contact |
| Routes.Server.ReplaceContactRows | server/routes.ts:513-521 | the table becomes the other users' rows followed by the new rows |
| Routes.Server.MarkContactsAdded | server/routes.ts:523 | sets the user's `hasAddedEmergencyContacts`; an unknown id changes nothing |
| Routes.Server.PostContacts | server/routes.ts:485-538 | a validation error or an unknown user changes nothing; success replaces the contacts, sets the flag, mails every address and reports the count |
| Routes.Server.PatchContacts | server/routes.ts:540-576 | a validation error changes nothing; success replaces the contacts and sets the flag for a known user, with no user check and no mail |
| Routes.Server.SendReport | server/routes.ts:634-664 | 404 for a missing report, then 404 for a missing owner; otherwise one mail per contact of the owner |
| ContactForm.Submitted | client/src/components/EmergencyContactForm.tsx:54 | the non-blank fields, untrimmed, each filled field once at its own place: email1 first, email2 after it, email3 last; as many entries as filled fields |
| ContactForm.SubmittedDistinct | client/src/components/EmergencyContactForm.tsx:54-55 | the submitted list repeats nothing iff no two filled fields hold the same text |
| ContactForm.OnSubmit | client/src/components/EmergencyContactForm.tsx:51-95 | no request iff there is a duplicate; the request carries the list and the user id; `isSubmitting` always ends false; success iff posted and the server answered OK |
| ContactForm.AcceptedFormSubmitsEmail | client/src/components/EmergencyContactForm.tsx:13-54 | a form the schema accepts submits at least one address |
| ContactForm.PostedRequestPassesServerChecks | client/src/components/EmergencyContactForm.tsx:54-70 | a posted non-empty request with a user id passes the server's first three checks; only the email pattern can still reject it |
| WebStorage.Store.SetItem | client/src/lib/storage.ts:29 | the key maps to the new text and no other entry changes; in the model's key order a new key goes last and a present one keeps its place |
| WebStorage.Store.RemoveItem | client/src/lib/storage.ts:67 | the key is gone from the map and the key list and no other entry changes; in the model's key order the others keep their places |
| LocalStore.GetKey | client/src/lib/storage.ts:9-11 | the stored key has the prefix, and cutting the prefix off gives the caller's key back |
| LocalStore.Prefixed | client/src/lib/storage.ts:76-81 | exactly the stored keys that start with the prefix |
| LocalStore.AllKeysMembers | client/src/lib/storage.ts:98-107 | a key is listed iff its prefixed form is stored |
| LocalStore.AllKeysEmpty | client/src/lib/storage.ts:98-107 | with no prefixed key stored, nothing is listed |
| LocalStore.AllKeys | client/src/lib/storage.ts:98-107 | `getAllKeys`'s answer; `AllKeysMembers` and `AllKeysEmpty` state its members |
| LocalStore.Unprefixed | client/src/lib/storage.ts:73-86 | the keys `clear` leaves: exactly the stored keys without the prefix, in the model's key order |
| LocalStore.SetThenGet | client/src/lib/storage.ts:13-53 | `set` then `get` with no expiry returns the value at any later time |
| LocalStore.ExpiryOnRead | client/src/lib/storage.ts:22-51 | with expire e > 0, the value is read up to and including set time + 1000e, and the default after it |
| LocalStore.RawRoundTrip | client/src/lib/storage.ts:25-57 | a raw string stored with serialize false is read back verbatim |
| LocalStore.ReadOfEncode | client/src/lib/storage.ts:13-57 | any envelope `set` writes reads back as the value until its expiry passes and as the default after; no expiry or `expire: 0` never expires |
| LocalStore.ClearedListsNothing | client/src/lib/storage.ts:73-112 | after `clear` no key is listed |
| LocalStore.LocalStorage.Set | client/src/lib/storage.ts:13-33 | writes the prefixed key and leaves every other key unchanged; in the model's key order a new key goes last |
| LocalStore.LocalStorage.Get | client/src/lib/storage.ts:35-62 | returns the read value; an expired item is removed from the map and the enumeration, and nothing else changes |
| LocalStore.LocalStorage.Remove | client/src/lib/storage.ts:64-71 | only the prefixed key is removed, from the map and the enumeration, and `exists` is then false |
| LocalStore.LocalStorage.Exists | client/src/lib/storage.ts:88-96 | `getItem(getKey(key)) !== null`; `Remove` states that it is false afterwards |
| LocalStore.LocalStorage.PrefixedKeys | client/src/lib/storage.ts:75-81 | the collection loop yields exactly the prefixed keys, in the order `key(i)` enumerates them |
| LocalStore.LocalStorage.RemoveAll | client/src/lib/storage.ts:82 | the removal loop takes exactly the listed keys out of the map and the key list, the rest keeping their places in the model's key order |
| LocalStore.LocalStorage.Clear | client/src/lib/storage.ts:73-86 | a key survives iff it lacks the prefix, surviving keys keep their texts and their order, and `getAllKeys` then lists nothing |
| LocalStore.LocalStorage.GetAllKeys | client/src/lib/storage.ts:98-112 | the loop yields the prefixed keys with the prefix cut off, in the order `key(i)` enumerates them |
| Auth.GetCurrentUserId | client/src/lib/auth.ts:36-47 | an id iff the looked-up text is non-empty raw text that `parseInt` reads, and then it is that reading; none when neither store holds a non-empty text |
| Auth.CurrentUserSource | client/src/lib/auth.ts:6-18 | the current user is a parsed document, taken from localStorage when that store holds one; otherwise it is exactly what sessionStorage alone gives |
| Auth.IsAuthenticated | client/src/lib/auth.ts:60-62 | `getCurrentUser() !== null`; `SignedInUserIsFound` and `ClearedMeansSignedOut` state when it holds |
| Auth.IsPremiumUser | client/src/lib/auth.ts:64-67 | true iff the current user exists and is premium; false when signed out |
| Auth.RequireAuth | client/src/lib/auth.ts:69-75 | fails with "Authentication required" iff there is no current user, otherwise returns it |
| Auth.SignedInUserIsFound | client/src/lib/auth.ts:6-47 | with the user written to either store and the other cleared, both lookups return the user and the user's id |
| Auth.LocalIsPreferred | client/src/lib/auth.ts:8-41 | when local holds both texts, the session store does not affect the answer |
| Auth.ClearedMeansSignedOut | client/src/lib/auth.ts:49-75 | with both keys gone from both stores: not authenticated, no id, not premium, and requireAuth fails |
| Auth.SetCurrentUser | client/src/lib/auth.ts:20-34 | both keys are written to the chosen store and removed from the other, in the map and in each key enumeration; afterwards the user and the user's id are found |
| Auth.ClearCurrentUser | client/src/lib/auth.ts:49-58 | both keys are removed from both stores' maps and enumerations; afterwards nobody is signed in and there is no id |
| Onboarding.WithField | client/src/pages/onboarding.tsx:72-74 | the one field takes the value and every other field is unchanged |
| Onboarding.Conditions | client/src/pages/onboarding.tsx:76-83 | checking appends the condition; unchecking removes every occurrence and keeps every other count |
| Onboarding.UncheckKeepsOrder | client/src/pages/onboarding.tsx:81 | unchecking keeps the other conditions in their order |
| Onboarding.CheckThenUncheck | client/src/pages/onboarding.tsx:79-81 | checking then unchecking a new condition restores the list |
| Onboarding.Next | client/src/pages/onboarding.tsx:48-52 | increments iff the step is below 4, otherwise unchanged; stays in 1..4 |
| Onboarding.Previous | client/src/pages/onboarding.tsx:54-58 | decrements iff the step is above 1, otherwise unchanged; stays in 1..4 |
| Onboarding.PreviousUndoesNext | client/src/pages/onboarding.tsx:48-58 | going back after going forward from a step below 4 returns to it |
| Onboarding.Progress | client/src/pages/onboarding.tsx:36-37 | progress is 25 per step, 100 exactly at step 4 |
| Onboarding.Wizard.NextStep | client/src/pages/onboarding.tsx:48-52 | the step advances as `Next` says, it stays in 1..4, and the form is unchanged |
| Onboarding.Wizard.PreviousStep | client/src/pages/onboarding.tsx:54-58 | the step goes back as `Previous` says, it stays in 1..4, and the form is unchanged |
| Onboarding.Wizard.HandleInputChange | client/src/pages/onboarding.tsx:72-74 | one form field changes, and the step is unchanged |
| Onboarding.Wizard.HandleHealthConditionChange | client/src/pages/onboarding.tsx:76-83 | only the conditions list changes, as `Conditions` says |
| Text.NatToStringRoundTrip | client/src/lib/auth.ts:30 | reading back the decimal digits of `toString` gives the number |
| Text.ToNumberOfNatToString | server/routes.ts:60 | `Number` of a rendered natural number gives it back |
| Text.ParseIntOfNatToString | client/src/lib/auth.ts:42 | `parseInt(n.toString() + rest)` is n when rest does not start with a digit |
| Text.ParseIntOfIntToString | client/src/lib/auth.ts:42 | the same for any integer, negative ones included |
| Text.SplitJoin | server/routes.ts:60 | joining the parts of `split` gives the string back |
| Text.SplitPartsClean | server/routes.ts:60 | no part of `split` contains the separator |
| Text.LeadingDigits | client/src/lib/auth.ts:42 | the longest digit prefix: it is a prefix, all digits, and the next character is not a digit |
| Text.TrimStartDrops | client/src/components/EmergencyContactForm.tsx:54 | `trimStart` drops a blank prefix and keeps the rest of the string as it is |
| Text.TrimEndDrops | client/src/components/EmergencyContactForm.tsx:54 | `trimEnd` drops a blank suffix and keeps the rest of the string as it is |
| Text.BlankIffTrimEmpty | client/src/components/EmergencyContactForm.tsx:54 | `trim()` is empty iff the string is all white space |
| Text.ToNumber | server/routes.ts:60 | `Number` on integer texts; `ToNumberOfNatToString` states the round trip |
| Text.ParseInt | client/src/lib/auth.ts:42 | `parseInt(s, 10)` on integer texts; `ParseIntOfNatToString` and `ParseIntOfIntToString` state the round trip |
| Unique.SetSize | client/src/components/EmergencyContactForm.tsx:55 | `new Set(s).size === s.length` iff s repeats nothing |
| Unique.Without | client/src/pages/onboarding.tsx:81 | the filtered list holds exactly the elements other than x, and is no longer |
| Unique.WithoutMultiset | client/src/pages/onboarding.tsx:81 | filtering removes every occurrence of x and keeps every other element's count |
| Unique.WithoutAppend | client/src/pages/onboarding.tsx:81 | filtering distributes over concatenation, so order is kept |
| Unique.Outside | client/src/lib/storage.ts:82 | removing a list of keys keeps exactly the other elements, in order |
| Unique.WithoutOutside | client/src/lib/storage.ts:82 | removing the keys one at a time is removing them all at once |

## Left out

- Timers, window and storage events, toasts and rendering. One call to
  `checkReminders` is one step, with the clock passed in. The event
  dispatch is a counter on the journal.
- JSON parse and stringify. Stored texts are the datatypes they encode
  (envelope, user document, raw text).
  - A raw string that happens to be valid JSON is treated as raw text.
  - A parsed document without a `value` field reads as `Null`, standing
    for `undefined`.
  - The unguarded `JSON.parse` of the journal in
    client/src/pages/dashboard.tsx:103 is assumed to succeed.
- `Number` and `parseInt` are modelled on integers only: optional white
  space, an optional sign and decimal digits. Decimals, hexadecimal,
  exponents and `Infinity` are not modelled. NaN is `None`, which
  compares false, as NaN does.
- Dates are integer milliseconds. `toTimeString`, `toISOString` and
  `toLocaleString` are given strings.
- The mail service itself (console output, the simulated delay) is a
  recorded outbox. A failing send is the parameter `failing`.
- The database layer: the contact rows are a sequence and the users and
  reports are maps. The queries of server/storage.ts are not modelled
  one by one. Exceptions and the 500 answers of the route handlers are
  not modelled.
- `Routes.Server.PostContacts`, `Routes.Server.PatchContacts`,
  `Routes.Server.SendReport`, `Routes.Server.NotifyEmergencyContacts`:
  server/storage.ts (`IStorage`, `DatabaseStorage`) defines none of
  `getEmergencyContactsByUserId`, `deleteEmergencyContactsByUserId` and
  `createEmergencyContact`, although the table exists
  (shared/schema.ts:64). As written, the calls at server/routes.ts:69,
  478, 513, 515, 561, 563 and 643 throw. POST then answers 500 at :536
  before any delete, flag update or mail; PATCH answers 500 at :574; the
  report route answers 500 at :662 after its two 404 checks; the GET
  route answers 500 at :481; and `notifyEmergencyContacts` throws to its
  caller. The model instead assumes a contact table with delete-by-user,
  insert, and select-by-user in insertion order, which is what the
  handlers evidently expect.
- The request body's `emails` field is either missing/not an array or a
  list of strings. Non-string elements are not modelled.
- zod's `email()` check is the parameter `isEmail`.
- The report-sharing mail body is the datatype `ReportShared` rather than
  HTML text.
- The report-upload route is modelled only by its fixed reading "120/80".
  File handling, the docbot, bcrypt, login, registration and premium
  upgrade are not part of this model.
- `Onboarding.Progress`: only the four steps 1..4 are modelled. There the
  floating-point `(step / 4) * 100` is an exact integer.
- `Onboarding.WithField`: only the ten text inputs are modelled.
  `handleInputChange` with the `healthConditions` field or an unknown
  field name is not.
- `Dropdown.MarkAllRead`: the server's bulk update is the boolean
  `serverAccepts`, and the server-side notification table is not
  modelled.
- `Feed.SortNewest`: the sort is a stable insertion sort on integer
  timestamps. The engine's own algorithm is not modelled; any stable
  sort gives the same list.
- The cross-tab `storage` listener and react-query refetching are not
  modelled.
- `LocalStore.Encode`, `LocalStore.LocalStorage.Set`: with `serialize:
  false` the model requires the value to be a string.
  client/src/lib/storage.ts:26 only casts the value with `as string`, and
  `setItem` then turns any other value into text with `String()`. That
  coercion is not modelled.
- `LocalStore.LocalStorage.Set`: client/src/lib/storage.ts:21-22 reads
  `Date.now()` twice, once for the timestamp and once for the expiry. The
  model uses one `now` for both, so the two readings agree.
- `LocalStore.LocalStorage.Set`: a `setItem` that throws (a full store,
  storage disabled) is caught at client/src/lib/storage.ts:30-32 and
  leaves the store unchanged. In the model the write always succeeds.
  The other `try`/`catch` blocks of the class are left out for the same
  reason.
- `Auth.SetCurrentUser`, `Auth.ClearCurrentUser`: every function of
  client/src/lib/auth.ts runs inside a `try`/`catch` (lines 7-17, 21-33,
  37-46 and 50-57), and the model's storage calls never throw.
  `SetCurrentUser` therefore promises that the user is found afterwards.
  In the source, with `rememberMe` false and a full sessionStorage, lines
  26-27 have already removed both keys from localStorage when the
  `setItem` at line 29 throws. Line 31 swallows the error, and nobody is
  signed in.
- `WebStorage.Store.SetItem`: the Web Storage standard leaves the order in
  which `key(n)` enumerates the keys to the browser. It only requires the
  order to stay the same while the number of keys does not change. The
  model fixes one order: insertion order, where a new key goes last and a
  removal keeps the others in place. The order clauses of
  `Store.RemoveItem`, `LocalStore.Unprefixed` and
  `LocalStorage.Set`/`RemoveAll`/`Clear` hold of that choice only;
  storage.ts does not depend on the order.
- `Dashboard.Stamp`: client/src/pages/dashboard.tsx reads the clock again
  for each entry, `Date.now() + i` for the id (line 153) and
  `new Date().toISOString()` for the creation time (line 155). Both are
  separate from the `now` of line 100. The model uses one reading,
  `stamp`, for the whole step. "Ids in stamp..stamp+n-1" and "created at
  stamp" hold of that single reading.
