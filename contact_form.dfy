/**
 * The emergency-contact form: its schema (three optional email fields, at
 * least one filled in) and its submit handler (drop blank fields, refuse
 * duplicates before any request, then post the list).
 *
 * zod's email check is not reproduced; it is the parameter `isEmail`.
 */
module ContactForm {
  import opened Wrappers
  import opened Text
  import opened Unique
  import Routes

  datatype FormData = FormData(email1: Option<string>, email2: Option<string>, email3: Option<string>)

  /** JavaScript truthiness of an optional string: present and not empty. */
  predicate Truthy(f: Option<string>) {
    f.Some? && f.value != ""
  }

  /** `z.string().email().optional().or(z.literal(''))`. */
  predicate FieldOk(f: Option<string>, isEmail: string -> bool) {
    f.None? || f.value == "" || isEmail(f.value)
  }

  /** The schema with its refinement `data.email1 || data.email2 || data.email3`. */
  predicate SchemaAccepts(data: FormData, isEmail: string -> bool) {
    && FieldOk(data.email1, isEmail) && FieldOk(data.email2, isEmail) && FieldOk(data.email3, isEmail)
    && (Truthy(data.email1) || Truthy(data.email2) || Truthy(data.email3))
  }

  /** `email && email.trim() !== ''`. */
  predicate Filled(f: Option<string>) {
    f.Some? && !IsBlank(f.value)
  }

  function Keep(f: Option<string>): seq<string> {
    if Filled(f) then [f.value] else []
  }

  /** How many places a field takes in the submitted list. */
  function Slot(f: Option<string>): nat {
    if Filled(f) then 1 else 0
  }

  /**
   * `[email1, email2, email3].filter(...)`: the filled fields in field order,
   * kept as typed (untrimmed).
   */
  function Submitted(data: FormData): (emails: seq<string>)
    ensures |emails| <= 3
    ensures forall e :: e in emails ==> !IsBlank(e)
    ensures forall e :: e in emails <==>
      (Filled(data.email1) && e == data.email1.value) || (Filled(data.email2) && e == data.email2.value)
      || (Filled(data.email3) && e == data.email3.value)
    ensures |emails| == Slot(data.email1) + Slot(data.email2) + Slot(data.email3)
    ensures Filled(data.email1) ==> emails[0] == data.email1.value
    ensures Filled(data.email2) ==> emails[Slot(data.email1)] == data.email2.value
    ensures Filled(data.email3) ==> emails[Slot(data.email1) + Slot(data.email2)] == data.email3.value
  {
    Keep(data.email1) + Keep(data.email2) + Keep(data.email3)
  }

  /** Two filled fields hold the same text. */
  predicate SameFilled(f: Option<string>, g: Option<string>) {
    Filled(f) && Filled(g) && f.value == g.value
  }

  /** The submitted list repeats nothing exactly when no two filled fields hold the same text. */
  lemma SubmittedDistinct(data: FormData)
    ensures Distinct(Submitted(data))
        <==> !SameFilled(data.email1, data.email2) && !SameFilled(data.email1, data.email3)
             && !SameFilled(data.email2, data.email3)
  {
  }

  /** The request body `{ emails, userId }`. */
  datatype Request = Request(emails: seq<string>, userId: int)

  /**
   * What one submission does: the request it posts (None when it stops at
   * the duplicate check), the final `isSubmitting` and `isSuccess` flags, and
   * the error toast's text, if any.
   */
  datatype Outcome = Outcome(posted: Option<Request>, isSubmitting: bool, isSuccess: bool, error: Option<string>)

  const DUPLICATE_MESSAGE := "Emails must be unique."
  const SAVE_FAILED := "Failed to save emergency contacts"

  /**
   * `onSubmit`. `failure` is None when the server answers OK, and otherwise
   * the message of the error raised (the server's message, or "" when it has none).
   */
  function OnSubmit(data: FormData, userId: int, failure: Option<string>): (o: Outcome)
    ensures o.posted.None? <==> !Distinct(Submitted(data))
    ensures o.posted.Some? ==> o.posted.value == Request(Submitted(data), userId)
    ensures !o.isSubmitting
    ensures o.isSuccess <==> o.posted.Some? && failure.None?
    ensures o.error.None? <==> o.isSuccess
  {
    var emails := Submitted(data);
    SetSize(emails);
    if |Elements(emails)| != |emails| then Outcome(None, false, false, Some(DUPLICATE_MESSAGE))
    else if failure.None? then Outcome(Some(Request(emails, userId)), false, true, None)
    else Outcome(Some(Request(emails, userId)), false, false, Some(if failure.value != "" then failure.value else SAVE_FAILED))
  }

  /** When the email check never accepts blank text, an accepted form submits at least one address. */
  lemma AcceptedFormSubmitsEmail(data: FormData, isEmail: string -> bool)
    requires SchemaAccepts(data, isEmail)
    requires forall s :: IsBlank(s) ==> !isEmail(s)
    ensures Submitted(data) != []
  {
    if Truthy(data.email1) {
      assert Filled(data.email1);
    } else if Truthy(data.email2) {
      assert Filled(data.email2);
    } else {
      assert Filled(data.email3);
    }
  }

  /**
   * A posted request with at least one address and a non-zero user id passes
   * the server's first three checks; only the server's own email pattern can still reject it.
   */
  lemma PostedRequestPassesServerChecks(data: FormData, userId: int, failure: Option<string>)
    requires OnSubmit(data, userId, failure).posted.Some?
    requires Submitted(data) != [] && userId != 0
    ensures var r := Routes.ValidatePost(Routes.Items(Submitted(data)), Some(userId));
      r != Some(Routes.EMAILS_REQUIRED) && r != Some(Routes.USER_ID_REQUIRED) && r != Some(Routes.NOT_UNIQUE)
    ensures Routes.ValidatePost(Routes.Items(Submitted(data)), Some(userId)).None?
      <==> forall e :: e in Submitted(data) ==> Routes.EmailOk(e)
  {
  }
}
