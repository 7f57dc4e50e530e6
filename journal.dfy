/**
 * The browser-local reminder journal that dashboard.tsx appends to and
 * notification-dropdown.tsx rewrites: one JSON array of notifications under
 * a single localStorage key, plus the "notifications-updated" window event
 * that every write is followed by.
 */
module Journal {
  import opened Schema

  /** The localStorage key of the journal. */
  const JOURNAL_KEY := "swaasthbuddy_notifications"

  class ReminderJournal {
    /** The decoded array stored under JOURNAL_KEY. */
    var entries: seq<Notification>
    /** How many "notifications-updated" events have been dispatched. */
    var broadcasts: nat

    constructor (initial: seq<Notification>)
      ensures entries == initial && broadcasts == 0
    {
      entries := initial;
      broadcasts := 0;
    }
  }
}
