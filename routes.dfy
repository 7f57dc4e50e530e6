/**
 * The server rules of server/routes.ts that the rest of the app relies on:
 * the blood-pressure alarm `isAbnormal`, the emergency-contact request
 * validation and its error precedence, the "replace this user's contacts"
 * effect, and the per-contact mail fan-out.
 *
 * The database is the state of class `Server` (users, reports, the contacts
 * table); sending a mail appends a record to `outbox`. Which recipients the
 * mail service fails on is a parameter, as is the formatted clock text.
 */
module Routes {
  import opened Wrappers
  import opened Schema
  import opened Text
  import opened Unique

  const PLATFORM_NAME := "WellnessBuddy"

  // ---------------------------------------------------------------------
  // isAbnormal

  /** `bloodPressure.split('/').map(Number)[k]`: None for NaN and for a part that is not there. */
  function Reading(parts: seq<string>, k: nat): Option<int> {
    if k < |parts| then ToNumber(parts[k]) else None
  }

  /** `sys > 140 || dia > 90` on the numbers read from the parts. */
  predicate HighParts(parts: seq<string>) {
    var systolic := Reading(parts, 0);
    var diastolic := Reading(parts, 1);
    (systolic.Some? && systolic.value > 140) || (diastolic.Some? && diastolic.value > 90)
  }

  /** `isAbnormal`: systolic above 140 or diastolic above 90; NaN and missing parts compare false. */
  predicate IsAbnormal(bloodPressure: Option<string>) {
    bloodPressure.Some? && bloodPressure.value != "" && HighParts(Split(bloodPressure.value, '/'))
  }

  lemma NoSlashInDigits(s: string)
    requires AllDigits(s)
    ensures '/' !in s
  {
    forall i | 0 <= i < |s|
      ensures s[i] != '/'
    {
      assert IsDigit(s[i]);
    }
  }

  /** On a well-formed reading "x/y" the alarm fires exactly when x > 140 or y > 90. */
  lemma IsAbnormalReading(x: nat, y: nat)
    ensures IsAbnormal(Some(NatToString(x) + "/" + NatToString(y))) <==> x > 140 || y > 90
  {
    var sx := NatToString(x);
    var sy := NatToString(y);
    NoSlashInDigits(sx);
    NoSlashInDigits(sy);
    SplitAfter(sx, '/', sy);
    SplitNone(sy, '/');
    var bp := sx + "/" + sy;
    assert bp == sx + ['/'] + sy;
    assert Split(bp, '/') == [sx, sy];
    ToNumberOfNatToString(x);
    ToNumberOfNatToString(y);
    assert Reading([sx, sy], 0) == Some(x as int);
    assert Reading([sx, sy], 1) == Some(y as int);
    assert bp != "";
  }

  /** A reading without a diastolic part fires only on its systolic value. */
  lemma IsAbnormalSystolicOnly(x: nat)
    ensures IsAbnormal(Some(NatToString(x))) <==> x > 140
  {
    var sx := NatToString(x);
    NoSlashInDigits(sx);
    SplitNone(sx, '/');
    ToNumberOfNatToString(x);
    assert Reading([sx], 0) == Some(x as int);
    assert Reading([sx], 1) == None;
  }

  /** The report upload stores this reading for every file. */
  const UPLOADED_BLOOD_PRESSURE := "120/80"

  /** The boundary reading 140/90 is normal. */
  lemma BoundaryIsNormal()
    ensures !IsAbnormal(Some("140/90"))
  {
    assert NatToString(14) == "14";
    assert NatToString(140) + "/" + NatToString(90) == "140/90";
    IsAbnormalReading(140, 90);
  }

  /** A reading of 150/95 raises the alarm. */
  lemma HighReadingIsAbnormal()
    ensures IsAbnormal(Some("150/95"))
  {
    assert NatToString(15) == "15";
    assert NatToString(150) + "/" + NatToString(95) == "150/95";
    IsAbnormalReading(150, 95);
  }

  /** The upload's fixed reading never raises an alert. */
  lemma UploadNeverAlerts()
    ensures !IsAbnormal(Some(UPLOADED_BLOOD_PRESSURE))
  {
    assert NatToString(12) == "12";
    assert NatToString(120) + "/" + NatToString(80) == UPLOADED_BLOOD_PRESSURE;
    IsAbnormalReading(120, 80);
  }

  // ---------------------------------------------------------------------
  // The e-mail pattern /^[^\s@]+@[^\s@]+\.[^\s@]+$/

  predicate EmailChar(c: char) {
    !IsSpace(c) && c != '@'
  }

  /** `[^\s@]+`. */
  predicate EmailRun(s: string) {
    |s| >= 1 && forall i :: 0 <= i < |s| ==> EmailChar(s[i])
  }

  /** The language of the pattern: three runs joined by an '@' at i and a '.' at j. */
  ghost predicate MatchesEmailPattern(s: string) {
    exists i, j :: 0 <= i < j < |s| && s[i] == '@' && s[j] == '.'
      && EmailRun(s[..i]) && EmailRun(s[i + 1..j]) && EmailRun(s[j + 1..])
  }

  /** The position of the first c in s, or |s|. */
  function IndexOf(s: string, c: char): (i: nat)
    ensures i <= |s| && (i < |s| ==> s[i] == c)
    ensures forall k :: 0 <= k < i ==> s[k] != c
  {
    if s == [] then 0 else if s[0] == c then 0 else 1 + IndexOf(s[1..], c)
  }

  /**
   * `emailRegex.test(email)`: no white space, exactly one '@' with something
   * before it, and a '.' in the domain that is neither its first nor its last character.
   */
  predicate EmailOk(s: string) {
    var i := IndexOf(s, '@');
    && 0 < i < |s|
    && (forall k :: 0 <= k < |s| ==> !IsSpace(s[k]))
    && (forall k :: i < k < |s| ==> s[k] != '@')
    && exists j :: i + 1 < j < |s| - 1 && s[j] == '.'
  }

  /** A stretch of s is a run exactly when it is non-empty and each of its characters is allowed. */
  lemma RunBetween(s: string, lo: int, hi: int)
    requires 0 <= lo <= hi <= |s|
    ensures EmailRun(s[lo..hi]) <==> lo < hi && forall k :: lo <= k < hi ==> EmailChar(s[k])
  {
    if lo < hi && forall k :: lo <= k < hi ==> EmailChar(s[k]) {
      forall k | 0 <= k < hi - lo
        ensures EmailChar(s[lo..hi][k])
      {
        assert s[lo..hi][k] == s[lo + k];
      }
    }
    if EmailRun(s[lo..hi]) {
      forall k | lo <= k < hi
        ensures EmailChar(s[k])
      {
        assert s[lo..hi][k - lo] == s[k];
      }
    }
  }

  lemma EmailOkIsPattern(s: string)
    requires EmailOk(s)
    ensures MatchesEmailPattern(s)
  {
    var i := IndexOf(s, '@');
    var j :| i + 1 < j < |s| - 1 && s[j] == '.';
    RunBetween(s, 0, i);
    RunBetween(s, i + 1, j);
    RunBetween(s, j + 1, |s|);
    assert s[..i] == s[0..i] && s[j + 1..] == s[j + 1..|s|];
    assert EmailRun(s[..i]) && EmailRun(s[i + 1..j]) && EmailRun(s[j + 1..]);
  }

  lemma PatternIsEmailOk(s: string)
    requires MatchesEmailPattern(s)
    ensures EmailOk(s)
  {
    var i, j :| 0 <= i < j < |s| && s[i] == '@' && s[j] == '.'
      && EmailRun(s[..i]) && EmailRun(s[i + 1..j]) && EmailRun(s[j + 1..]);
    PatternChars(s, i, j);
    FirstAt(s, '@', i);
    assert !IsSpace('@') && !IsSpace('.');
  }

  /** Around the '@' at i and the '.' at j every character is allowed, and each run is non-empty. */
  lemma PatternChars(s: string, i: int, j: int)
    requires 0 <= i < j < |s| && EmailRun(s[..i]) && EmailRun(s[i + 1..j]) && EmailRun(s[j + 1..])
    ensures 0 < i && i + 1 < j < |s| - 1
    ensures forall k :: 0 <= k < |s| && k != i && k != j ==> EmailChar(s[k])
  {
    assert s[..i] == s[0..i] && s[j + 1..] == s[j + 1..|s|];
    RunBetween(s, 0, i);
    RunBetween(s, i + 1, j);
    RunBetween(s, j + 1, |s|);
  }

  /** IndexOf finds the first occurrence. */
  lemma FirstAt(s: string, c: char, i: int)
    requires 0 <= i < |s| && s[i] == c
    requires forall k :: 0 <= k < i ==> s[k] != c
    ensures IndexOf(s, c) == i
  {
  }

  /** The check accepts exactly the strings of the pattern's language. */
  lemma EmailOkMatchesPattern(s: string)
    ensures EmailOk(s) <==> MatchesEmailPattern(s)
  {
    if EmailOk(s) {
      EmailOkIsPattern(s);
    }
    if MatchesEmailPattern(s) {
      PatternIsEmailOk(s);
    }
  }

  // ---------------------------------------------------------------------
  // Request validation

  /** The `emails` field of a request body. */
  datatype EmailsField = Missing | NotAList | Items(emails: seq<string>)

  /** A response: status code and the body's message. */
  datatype Reply = Reply(status: int, message: string)

  const EMAILS_REQUIRED := Reply(400, "At least one email address is required")
  const USER_ID_REQUIRED := Reply(400, "User ID is required")
  const NOT_UNIQUE := Reply(400, "Emails must be unique.")
  const USER_NOT_FOUND := Reply(404, "User not found")
  const REPORT_NOT_FOUND := Reply(404, "Report not found")

  function InvalidFormat(email: string): Reply {
    Reply(400, "Invalid email format: " + email)
  }

  /** `emails && Array.isArray(emails) && emails.length !== 0`. */
  predicate HasEmails(f: EmailsField) {
    f.Items? && f.emails != []
  }

  /** The format loop: the position of the first email, in list order, that the pattern rejects, or the length. */
  function FirstInvalid(emails: seq<string>): (k: nat)
    ensures k <= |emails|
    ensures k < |emails| ==> !EmailOk(emails[k])
    ensures forall j :: 0 <= j < k ==> EmailOk(emails[j])
  {
    if emails == [] then 0
    else if !EmailOk(emails[0]) then 0
    else 1 + FirstInvalid(emails[1..])
  }

  /** The uniqueness check `new Set(emails).size !== emails.length`, then the format loop. */
  function CheckEmails(emails: seq<string>): (r: Option<Reply>)
    ensures r == Some(NOT_UNIQUE) <==> !Distinct(emails)
    ensures r.None? <==> Distinct(emails) && forall e :: e in emails ==> EmailOk(e)
    ensures r.Some? && r != Some(NOT_UNIQUE) ==>
      Distinct(emails) && FirstInvalid(emails) < |emails| && r == Some(InvalidFormat(emails[FirstInvalid(emails)]))
  {
    SetSize(emails);
    if |Elements(emails)| != |emails| then Some(NOT_UNIQUE)
    else
      var k := FirstInvalid(emails);
      if k == |emails| then None
      else
        assert InvalidFormat(emails[k]).message[0] == 'I' && NOT_UNIQUE.message[0] == 'E';
        Some(InvalidFormat(emails[k]))
  }

  /** The POST handler's checks, in its order: emails, user id, uniqueness, format. */
  function ValidatePost(f: EmailsField, userId: Option<int>): (r: Option<Reply>)
    ensures r == Some(EMAILS_REQUIRED) <==> !HasEmails(f)
    ensures r == Some(USER_ID_REQUIRED) <==> HasEmails(f) && !Present(userId)
    ensures r == Some(NOT_UNIQUE) <==> HasEmails(f) && Present(userId) && !Distinct(f.emails)
    ensures r.None? <==> HasEmails(f) && Present(userId) && Distinct(f.emails) && forall e :: e in f.emails ==> EmailOk(e)
    ensures HasEmails(f) && Present(userId) && Distinct(f.emails) && FirstInvalid(f.emails) < |f.emails|
      ==> r == Some(InvalidFormat(f.emails[FirstInvalid(f.emails)]))
  {
    if !HasEmails(f) then Some(EMAILS_REQUIRED)
    else if !Present(userId) then Some(USER_ID_REQUIRED)
    else
      var r := CheckEmails(f.emails);
      assert r.Some? && r != Some(NOT_UNIQUE) ==> r.value.message[0] == 'I';
      r
  }

  /** The PATCH handler's checks: the user id comes first. */
  function ValidatePatch(f: EmailsField, userId: Option<int>): (r: Option<Reply>)
    ensures r == Some(USER_ID_REQUIRED) <==> !Present(userId)
    ensures r == Some(EMAILS_REQUIRED) <==> Present(userId) && !HasEmails(f)
    ensures r == Some(NOT_UNIQUE) <==> Present(userId) && HasEmails(f) && !Distinct(f.emails)
    ensures r.None? <==> HasEmails(f) && Present(userId) && Distinct(f.emails) && forall e :: e in f.emails ==> EmailOk(e)
    ensures HasEmails(f) && Present(userId) && Distinct(f.emails) && FirstInvalid(f.emails) < |f.emails|
      ==> r == Some(InvalidFormat(f.emails[FirstInvalid(f.emails)]))
  {
    if !Present(userId) then Some(USER_ID_REQUIRED)
    else if !HasEmails(f) then Some(EMAILS_REQUIRED)
    else
      var r := CheckEmails(f.emails);
      assert r.Some? && r != Some(NOT_UNIQUE) ==> r.value.message[0] == 'I';
      r
  }

  /** The two handlers answer alike except when both the emails and the user id are missing. */
  lemma PostPatchPrecedence(f: EmailsField, userId: Option<int>)
    ensures ValidatePost(f, userId) != ValidatePatch(f, userId) <==> !HasEmails(f) && !Present(userId)
  {
    if !HasEmails(f) && !Present(userId) {
      assert ValidatePost(f, userId) == Some(EMAILS_REQUIRED);
      assert ValidatePatch(f, userId) == Some(USER_ID_REQUIRED);
    }
  }

  // ---------------------------------------------------------------------
  // The contacts table

  const FAMILY_NAME := "Family Member"
  const FAMILY_RELATION := "Family"

  /** `getEmergencyContactsByUserId`: the user's rows in table order. */
  function ContactsOf(contacts: seq<EmergencyContact>, userId: int): seq<EmergencyContact> {
    if contacts == [] then []
    else
      var last := contacts[|contacts| - 1];
      ContactsOf(contacts[..|contacts| - 1], userId) + (if last.userId == userId then [last] else [])
  }

  /** The rows left after `deleteEmergencyContactsByUserId`. */
  function OtherUsers(contacts: seq<EmergencyContact>, userId: int): seq<EmergencyContact> {
    if contacts == [] then []
    else
      var last := contacts[|contacts| - 1];
      OtherUsers(contacts[..|contacts| - 1], userId) + (if last.userId != userId then [last] else [])
  }

  /** The user's rows are exactly the table's rows with that user id. */
  lemma {:induction false} ContactsOfMembers(contacts: seq<EmergencyContact>, userId: int)
    ensures forall c :: c in ContactsOf(contacts, userId) <==> c in contacts && c.userId == userId
  {
    if contacts != [] {
      var init := contacts[..|contacts| - 1];
      ContactsOfMembers(init, userId);
      assert contacts == init + [contacts[|contacts| - 1]];
    }
  }

  /** The deletion keeps exactly the rows of other users. */
  lemma {:induction false} OtherUsersMembers(contacts: seq<EmergencyContact>, userId: int)
    ensures forall c :: c in OtherUsers(contacts, userId) <==> c in contacts && c.userId != userId
  {
    if contacts != [] {
      var init := contacts[..|contacts| - 1];
      OtherUsersMembers(init, userId);
      assert contacts == init + [contacts[|contacts| - 1]];
    }
  }

  /** The rows the `createEmergencyContact` loop adds, one per email in order. */
  function NewContacts(userId: int, emails: seq<string>): (r: seq<EmergencyContact>)
    ensures |r| == |emails|
    ensures forall k :: 0 <= k < |emails| ==> r[k] == EmergencyContact(userId, emails[k], FAMILY_NAME, FAMILY_RELATION)
  {
    seq(|emails|, k requires 0 <= k < |emails| => EmergencyContact(userId, emails[k], FAMILY_NAME, FAMILY_RELATION))
  }

  /** Delete the user's rows, then add the new ones. */
  function Replace(contacts: seq<EmergencyContact>, userId: int, emails: seq<string>): seq<EmergencyContact> {
    OtherUsers(contacts, userId) + NewContacts(userId, emails)
  }

  /** `contacts.map(c => c.email)`. */
  function EmailsOf(contacts: seq<EmergencyContact>): (r: seq<string>)
    ensures |r| == |contacts| && forall k :: 0 <= k < |r| ==> r[k] == contacts[k].email
  {
    seq(|contacts|, k requires 0 <= k < |contacts| => contacts[k].email)
  }

  lemma {:induction false} ContactsOfAppend(a: seq<EmergencyContact>, b: seq<EmergencyContact>, userId: int)
    ensures ContactsOf(a + b, userId) == ContactsOf(a, userId) + ContactsOf(b, userId)
  {
    if b == [] {
      assert a + b == a;
    } else {
      assert (a + b)[..|a + b| - 1] == a + b[..|b| - 1];
      ContactsOfAppend(a, b[..|b| - 1], userId);
    }
  }

  lemma {:induction false} ContactsOfOthers(contacts: seq<EmergencyContact>, userId: int, v: int)
    ensures ContactsOf(OtherUsers(contacts, userId), v) == if v == userId then [] else ContactsOf(contacts, v)
  {
    if contacts != [] {
      var p := contacts[..|contacts| - 1];
      var last := contacts[|contacts| - 1];
      ContactsOfOthers(p, userId, v);
      ContactsOfAppend(OtherUsers(p, userId), if last.userId != userId then [last] else [], v);
    }
  }

  /** Rows that all belong to one user are all of that user's rows and none of anyone else's. */
  lemma {:induction false} ContactsOfOwn(rows: seq<EmergencyContact>, owner: int, v: int)
    requires forall k :: 0 <= k < |rows| ==> rows[k].userId == owner
    ensures ContactsOf(rows, v) == if v == owner then rows else []
  {
    if rows != [] {
      var init, last := rows[..|rows| - 1], rows[|rows| - 1];
      ContactsOfOwn(init, owner, v);
      assert ContactsOf(rows, v) == ContactsOf(init, v) + (if owner == v then [last] else []);
      assert rows == init + [last];
    }
  }

  lemma ContactsOfNew(userId: int, emails: seq<string>, v: int)
    ensures ContactsOf(NewContacts(userId, emails), v) == if v == userId then NewContacts(userId, emails) else []
  {
    ContactsOfOwn(NewContacts(userId, emails), userId, v);
  }

  /**
   * After the replacement the user's contacts are exactly the submitted
   * emails, in order, as family members.
   */
  lemma ReplaceContacts(contacts: seq<EmergencyContact>, userId: int, emails: seq<string>)
    ensures ContactsOf(Replace(contacts, userId, emails), userId) == NewContacts(userId, emails)
    ensures EmailsOf(ContactsOf(Replace(contacts, userId, emails), userId)) == emails
  {
    ContactsOfAppend(OtherUsers(contacts, userId), NewContacts(userId, emails), userId);
    ContactsOfOthers(contacts, userId, userId);
    ContactsOfNew(userId, emails, userId);
    assert ContactsOf(Replace(contacts, userId, emails), userId) == [] + NewContacts(userId, emails);
  }

  /** The replacement leaves every other user's contacts as they were. */
  lemma ReplaceKeepsOthers(contacts: seq<EmergencyContact>, userId: int, emails: seq<string>, v: int)
    requires v != userId
    ensures ContactsOf(Replace(contacts, userId, emails), v) == ContactsOf(contacts, v)
  {
    ContactsOfAppend(OtherUsers(contacts, userId), NewContacts(userId, emails), v);
    ContactsOfOthers(contacts, userId, v);
    ContactsOfNew(userId, emails, v);
    assert ContactsOf(Replace(contacts, userId, emails), v) == ContactsOf(contacts, v) + [];
  }

  // ---------------------------------------------------------------------
  // Mail

  /** The message bodies: the default login notice, or the report-sharing page. */
  datatype Body =
    | LoginNotice(firstName: string, lastName: string, loginTime: string)
    | ReportShared(firstName: string, lastName: string, fileName: string, link: string, sentAt: string)

  datatype Mail = Mail(to: string, subject: string, body: Body)

  function LoginSubject(user: User): string {
    "Update from " + PLATFORM_NAME + ": " + user.firstName + " " + user.lastName + " has logged in"
  }

  /** `subject || <login subject>`: a missing or empty subject falls back to the login subject. */
  function SubjectFor(user: User, subject: Option<string>): string {
    if subject.Some? && subject.value != "" then subject.value else LoginSubject(user)
  }

  /** `html || <login notice>`. */
  function BodyFor(user: User, html: Option<Body>, clock: string): Body {
    if html.Some? then html.value else LoginNotice(user.firstName, user.lastName, clock)
  }

  /** What `sendEmergencyContactNotifications` sends: one mail per email, in order, skipping the ones the service fails on. */
  function Mails(emails: seq<string>, user: User, subject: Option<string>, html: Option<Body>, clock: string,
                 failing: set<string>): seq<Mail>
  {
    if emails == [] then []
    else
      var e := emails[|emails| - 1];
      Mails(emails[..|emails| - 1], user, subject, html, clock, failing)
      + (if e in failing then [] else [Mail(e, SubjectFor(user, subject), BodyFor(user, html, clock))])
  }

  /**
   * Every mail goes to a listed, working address with the chosen subject and
   * body; every working address gets one; and with no failures the mails
   * follow the list one for one.
   */
  lemma {:induction false} MailsSpec(emails: seq<string>, user: User, subject: Option<string>, html: Option<Body>,
                                     clock: string, failing: set<string>)
    ensures forall m :: m in Mails(emails, user, subject, html, clock, failing) ==>
      m.to in emails && m.to !in failing && m.subject == SubjectFor(user, subject) && m.body == BodyFor(user, html, clock)
    ensures forall e :: e in emails && e !in failing ==>
      Mail(e, SubjectFor(user, subject), BodyFor(user, html, clock)) in Mails(emails, user, subject, html, clock, failing)
    ensures failing == {} ==> (|Mails(emails, user, subject, html, clock, failing)| == |emails|
      && forall k :: 0 <= k < |emails| ==> Mails(emails, user, subject, html, clock, failing)[k].to == emails[k])
  {
    if emails != [] {
      var p := emails[..|emails| - 1];
      MailsSpec(p, user, subject, html, clock, failing);
      assert emails == p + [emails[|emails| - 1]];
    }
  }

  /** A failure on one batch does not change what the next batch sends. */
  lemma {:induction false} MailsAppend(a: seq<string>, b: seq<string>, user: User, subject: Option<string>,
                                       html: Option<Body>, clock: string, failing: set<string>)
    ensures Mails(a + b, user, subject, html, clock, failing)
         == Mails(a, user, subject, html, clock, failing) + Mails(b, user, subject, html, clock, failing)
  {
    if b == [] {
      assert a + b == a;
    } else {
      assert (a + b)[..|a + b| - 1] == a + b[..|b| - 1];
      MailsAppend(a, b[..|b| - 1], user, subject, html, clock, failing);
    }
  }

  /** The report-sharing subject. */
  function ReportSubject(user: User): string {
    "Health Report from " + user.firstName + " " + user.lastName
  }

  /** The download link of a report. */
  function ReportLink(reportId: int): string {
    "http://localhost:5000/api/reports/" + IntToString(reportId) + "/view"
  }

  /** The link names the report: its number reads back from the text after the fixed prefix. */
  lemma ReportLinkNamesReport(reportId: int)
    ensures var prefix := "http://localhost:5000/api/reports/";
      ReportLink(reportId)[..|prefix|] == prefix && ParseInt(ReportLink(reportId)[|prefix|..]) == Some(reportId)
  {
    var prefix := "http://localhost:5000/api/reports/";
    var tail := IntToString(reportId) + "/view";
    assert ReportLink(reportId) == prefix + tail;
    assert (prefix + tail)[..|prefix|] == prefix;
    assert (prefix + tail)[|prefix|..] == tail;
    ParseIntOfIntToString(reportId, "/view");
  }

  const CONTACTS_SAVED := Reply(200, "Emergency contacts saved successfully")
  const CONTACTS_UPDATED := Reply(200, "Emergency contacts updated successfully")
  const REPORT_SENT := Reply(200, "Report sent to emergency contacts.")

  class Server {
    var users: map<int, User>
    var reports: map<int, HealthReport>
    var contacts: seq<EmergencyContact>
    /** Every mail handed to the mail service, oldest first. */
    var outbox: seq<Mail>

    constructor (users0: map<int, User>, reports0: map<int, HealthReport>, contacts0: seq<EmergencyContact>)
      ensures users == users0 && reports == reports0 && contacts == contacts0 && outbox == []
    {
      users := users0;
      reports := reports0;
      contacts := contacts0;
      outbox := [];
    }

    /** `sendEmergencyContactNotifications`: the loop over the emails, one try/catch per email. */
    method SendNotifications(emails: seq<string>, user: User, subject: Option<string>, html: Option<Body>,
                             clock: string, failing: set<string>)
      modifies this
      ensures outbox == old(outbox) + Mails(emails, user, subject, html, clock, failing)
      ensures users == old(users) && reports == old(reports) && contacts == old(contacts)
    {
      for i := 0 to |emails|
        invariant outbox == old(outbox) + Mails(emails[..i], user, subject, html, clock, failing)
        invariant users == old(users) && reports == old(reports) && contacts == old(contacts)
      {
        assert emails[..i + 1][..i] == emails[..i];
        if emails[i] !in failing {
          outbox := outbox + [Mail(emails[i], SubjectFor(user, subject), BodyFor(user, html, clock))];
        }
      }
      assert emails[..|emails|] == emails;
    }

    /** Sends to each of the user's contacts in turn, one single-address batch per contact. */
    method SendToContacts(userId: int, user: User, subject: Option<string>, html: Option<Body>,
                          clock: string, failing: set<string>)
      modifies this
      ensures outbox == old(outbox) + Mails(EmailsOf(ContactsOf(old(contacts), userId)), user, subject, html, clock, failing)
      ensures users == old(users) && reports == old(reports) && contacts == old(contacts)
    {
      var emails := EmailsOf(ContactsOf(contacts, userId));
      for i := 0 to |emails|
        invariant outbox == old(outbox) + Mails(emails[..i], user, subject, html, clock, failing)
        invariant users == old(users) && reports == old(reports) && contacts == old(contacts)
      {
        SendNotifications([emails[i]], user, subject, html, clock, failing);
        assert emails[..i + 1][..i] == emails[..i];
        assert [emails[i]][..0] == [];
      }
      assert emails[..|emails|] == emails;
    }

    /** `notifyEmergencyContacts`: nothing is sent for an unknown user. */
    method NotifyEmergencyContacts(userId: int, subject: string, html: Body, clock: string, failing: set<string>)
      modifies this
      ensures userId !in old(users) ==> outbox == old(outbox)
      ensures userId in old(users) ==> (outbox == old(outbox)
        + Mails(EmailsOf(ContactsOf(old(contacts), userId)), old(users)[userId], Some(subject), Some(html), clock, failing))
      ensures users == old(users) && reports == old(reports) && contacts == old(contacts)
    {
      if userId !in users {
        return;
      }
      SendToContacts(userId, users[userId], Some(subject), Some(html), clock, failing);
    }

    /** Deletes the user's rows, then creates one row per email in order. */
    method ReplaceContactRows(userId: int, emails: seq<string>)
      modifies this
      ensures contacts == Replace(old(contacts), userId, emails)
      ensures users == old(users) && reports == old(reports) && outbox == old(outbox)
    {
      contacts := OtherUsers(contacts, userId);
      for i := 0 to |emails|
        invariant contacts == OtherUsers(old(contacts), userId) + NewContacts(userId, emails[..i])
        invariant users == old(users) && reports == old(reports) && outbox == old(outbox)
      {
        assert NewContacts(userId, emails[..i + 1]) == NewContacts(userId, emails[..i])
          + [EmergencyContact(userId, emails[i], FAMILY_NAME, FAMILY_RELATION)];
        contacts := contacts + [EmergencyContact(userId, emails[i], FAMILY_NAME, FAMILY_RELATION)];
      }
      assert emails[..|emails|] == emails;
    }

    /** `updateUser(userId, { hasAddedEmergencyContacts: true })`; no row changes for an unknown id. */
    method MarkContactsAdded(userId: int)
      modifies this
      ensures users == if userId in old(users) then old(users)[userId := old(users)[userId].(hasAddedEmergencyContacts := true)] else old(users)
      ensures reports == old(reports) && contacts == old(contacts) && outbox == old(outbox)
    {
      if userId in users {
        users := users[userId := users[userId].(hasAddedEmergencyContacts := true)];
      }
    }

    /**
     * POST /api/user/emergency-contacts. A rejected request changes nothing;
     * an accepted one replaces the user's contacts, sets the user's flag, and
     * sends the login notice to every new address. `count` is `contactsCount`.
     */
    method PostContacts(f: EmailsField, userId: Option<int>, clock: string, failing: set<string>)
      returns (reply: Reply, count: Option<int>)
      modifies this
      ensures ValidatePost(f, userId).Some? ==>
        reply == ValidatePost(f, userId).value && count == None
        && users == old(users) && contacts == old(contacts) && outbox == old(outbox)
      ensures ValidatePost(f, userId).None? && userId.value !in old(users) ==>
        reply == USER_NOT_FOUND && count == None
        && users == old(users) && contacts == old(contacts) && outbox == old(outbox)
      ensures ValidatePost(f, userId).None? && userId.value in old(users) ==>
        reply == CONTACTS_SAVED && count == Some(|f.emails|)
        && contacts == Replace(old(contacts), userId.value, f.emails)
        && users == old(users)[userId.value := old(users)[userId.value].(hasAddedEmergencyContacts := true)]
        && outbox == old(outbox) + Mails(f.emails, old(users)[userId.value], None, None, clock, failing)
      ensures reports == old(reports)
    {
      var invalid := ValidatePost(f, userId);
      if invalid.Some? {
        return invalid.value, None;
      }
      var id := userId.value;
      if id !in users {
        return USER_NOT_FOUND, None;
      }
      var user := users[id];
      ReplaceContactRows(id, f.emails);
      MarkContactsAdded(id);
      SendNotifications(f.emails, user, None, None, clock, failing);
      reply, count := CONTACTS_SAVED, Some(|f.emails|);
    }

    /**
     * PATCH /api/user/emergency-contacts: the same replacement with the user
     * id checked first, no user lookup and no mail.
     */
    method PatchContacts(f: EmailsField, userId: Option<int>)
      returns (reply: Reply)
      modifies this
      ensures ValidatePatch(f, userId).Some? ==>
        reply == ValidatePatch(f, userId).value && users == old(users) && contacts == old(contacts)
      ensures ValidatePatch(f, userId).None? ==>
        reply == CONTACTS_UPDATED
        && contacts == Replace(old(contacts), userId.value, f.emails)
        && users == if userId.value in old(users)
                    then old(users)[userId.value := old(users)[userId.value].(hasAddedEmergencyContacts := true)]
                    else old(users)
      ensures reports == old(reports) && outbox == old(outbox)
    {
      var invalid := ValidatePatch(f, userId);
      if invalid.Some? {
        return invalid.value;
      }
      ReplaceContactRows(userId.value, f.emails);
      MarkContactsAdded(userId.value);
      reply := CONTACTS_UPDATED;
    }

    /**
     * POST /api/health-reports/:reportId/send-to-contacts: 404 for a missing
     * report, then 404 for a missing owner; otherwise one mail per contact of the owner.
     */
    method SendReport(reportId: int, clock: string, failing: set<string>) returns (reply: Reply)
      modifies this
      ensures reportId !in old(reports) ==> reply == REPORT_NOT_FOUND && outbox == old(outbox)
      ensures reportId in old(reports) && old(reports)[reportId].userId !in old(users) ==>
        reply == USER_NOT_FOUND && outbox == old(outbox)
      ensures reportId in old(reports) && old(reports)[reportId].userId in old(users) ==>
        var report := old(reports)[reportId];
        var user := old(users)[report.userId];
        reply == REPORT_SENT
        && outbox == old(outbox) + Mails(EmailsOf(ContactsOf(old(contacts), report.userId)), user,
                                         Some(ReportSubject(user)),
                                         Some(ReportShared(user.firstName, user.lastName, report.fileName, ReportLink(reportId), clock)),
                                         clock, failing)
      ensures users == old(users) && reports == old(reports) && contacts == old(contacts)
    {
      if reportId !in reports {
        return REPORT_NOT_FOUND;
      }
      var report := reports[reportId];
      if report.userId !in users {
        return USER_NOT_FOUND;
      }
      var user := users[report.userId];
      var html := ReportShared(user.firstName, user.lastName, report.fileName, ReportLink(reportId), clock);
      SendToContacts(report.userId, user, Some(ReportSubject(user)), Some(html), clock, failing);
      reply := REPORT_SENT;
    }
  }

  /** A report mail reaches exactly the owner's working contact addresses, each once when none fails. */
  lemma ReportMailsReachContacts(contacts: seq<EmergencyContact>, owner: User, userId: int, reportId: int, fileName: string,
                                 clock: string, failing: set<string>)
    ensures var sent := Mails(EmailsOf(ContactsOf(contacts, userId)), owner, Some(ReportSubject(owner)),
                              Some(ReportShared(owner.firstName, owner.lastName, fileName, ReportLink(reportId), clock)), clock, failing);
      (forall m :: m in sent ==> m.subject == ReportSubject(owner) && exists c :: c in contacts && c.userId == userId && c.email == m.to)
      && (failing == {} ==> |sent| == |ContactsOf(contacts, userId)|)
  {
    var mine := ContactsOf(contacts, userId);
    var emails := EmailsOf(mine);
    var subject := Some(ReportSubject(owner));
    var html := Some(ReportShared(owner.firstName, owner.lastName, fileName, ReportLink(reportId), clock));
    MailsSpec(emails, owner, subject, html, clock, failing);
    assert ReportSubject(owner) != "" by {
      assert ReportSubject(owner)[0] == 'H';
    }
    forall m | m in Mails(emails, owner, subject, html, clock, failing)
      ensures exists c :: c in contacts && c.userId == userId && c.email == m.to
    {
      var k :| 0 <= k < |emails| && emails[k] == m.to;
      ContactsOfMembers(contacts, userId);
      assert mine[k] in mine;
    }
  }
}
