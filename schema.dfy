/**
 * The records of shared/schema.ts that the modelled code reads and writes,
 * reduced to the fields it touches. Timestamps are milliseconds since the
 * epoch; nullable columns are Options.
 */
module Schema {
  import opened Wrappers

  /** A row of `users`. Ids are serial, hence natural numbers. */
  datatype User = User(
    id: nat,
    firstName: string,
    lastName: string,
    age: Option<int>,
    isPremium: bool,
    hasAddedEmergencyContacts: bool)

  /** A row of `schedules`; `time` is the "HH:mm" string the user entered. */
  datatype Schedule = Schedule(id: int, userId: int, title: string, time: string, completed: bool)

  /** A row of `medicines`; a medicine has no completed flag. */
  datatype Medicine = Medicine(id: int, userId: int, name: string, dosage: string, time: string)

  /** A row of `health_reports`; the readings are free text. */
  datatype HealthReport = HealthReport(
    id: int,
    userId: int,
    fileName: string,
    bloodPressure: Option<string>,
    heartRate: Option<string>)

  /**
   * A notification as the client holds it: a row of `notifications` from the
   * server (sourceId None) or a reminder entry of the browser-local journal,
   * which also carries the id of the schedule or medicine it is about.
   */
  datatype Notification = Notification(
    id: int,
    userId: int,
    title: string,
    message: string,
    kind: string,
    read: bool,
    createdAt: int,
    sourceId: Option<int>)

  /** A row of `emergency_contacts` (its serial id and timestamp are not modelled). */
  datatype EmergencyContact = EmergencyContact(userId: int, email: string, name: string, relationship: string)

  /**
   * The client's guards `if (!userId)`: a user id read from storage counts only
   * when it is present and not 0 (0 and NaN are falsy in JavaScript).
   */
  predicate Present(userId: Option<int>) {
    userId.Some? && userId.value != 0
  }
}
