/** The submit handler of the contact form: the gate that decides between the
    "fill in all fields" error, the "invalid email" error and the sending path. */
module ContactForm {

  import opened Wrappers
  import Email

  /** The four fields as `FormData.get` returns them; `None` is a field the
      form does not have. */
  datatype Fields = Fields(name: Option<string>, email: Option<string>, subject: Option<string>, message: Option<string>)

  /** The submit button's visible state. */
  datatype Button = Button(text: string, disabled: bool)

  datatype NoticeKind = Success | Error

  /** A toast notification: its message and its type. */
  datatype Notice = Notice(message: string, kind: NoticeKind)

  /** What one submission does synchronously: it shows an error toast and
      leaves the form and the button alone, or it switches the button to its
      sending state, or, past the gate, it finds no submit button and the
      handler stops with a `TypeError` before changing anything. */
  datatype Reaction = Rejected(notice: Notice) | Sending(button: Button) | NoSubmitButton

  const FillAllFields: string := "Please fill in all fields."
  const EnterValidEmail: string := "Please enter a valid email address."
  const SendingLabel: string := "Sending..."

  /** A field value JavaScript treats as false under `!`: `null` or the empty string. */
  predicate Blank(v: Option<string>) {
    v.None? || v.value == ""
  }

  predicate AnyBlank(f: Fields) {
    Blank(f.name) || Blank(f.email) || Blank(f.subject) || Blank(f.message)
  }

  /** Both checks of the handler pass: no field is blank and the address
      matches the pattern. */
  predicate PassesGate(f: Fields) {
    !AnyBlank(f) && Email.MatchesPattern(f.email.value)
  }

  /** The submit handler up to the simulated send. `button` is the form's
      `button[type="submit"]`, `None` when the form has none. The blank-field
      check comes first, so a blank field gives its error whatever the email
      is; the sending path is reached exactly when every field is filled in,
      the address matches the pattern and the button exists. A form without
      the button fails only once both checks have passed. */
  function Submit(f: Fields, button: Option<Button>): (r: Reaction)
    ensures AnyBlank(f) ==> r == Rejected(Notice(FillAllFields, Error))
    ensures !AnyBlank(f) && !Email.MatchesPattern(f.email.value) ==> r == Rejected(Notice(EnterValidEmail, Error))
    ensures r.Sending? <==> PassesGate(f) && button.Some?
    ensures r == NoSubmitButton <==> PassesGate(f) && button.None?
    ensures r.Sending? ==> r.button == Button(SendingLabel, true)
  {
    if AnyBlank(f) then
      Rejected(Notice(FillAllFields, Error))
    else if !Email.MatchesPattern(f.email.value) then
      Rejected(Notice(EnterValidEmail, Error))
    else
      match button
      case None => NoSubmitButton
      case Some(b) => Sending(b.(text := SendingLabel, disabled := true))
  }

  /** A submission that reaches the sending path carries a structurally
      well-formed address: one `@`, no white space, a non-empty local part
      and a domain with an inner dot. */
  lemma SendingMeansWellFormed(f: Fields, button: Option<Button>)
    requires Submit(f, button).Sending?
    ensures f.email.Some? && Email.WellFormed(f.email.value)
  {
    Email.PatternIffWellFormed(f.email.value);
  }

  /** Changing only the email never changes the outcome of a submission that
      has another blank field. */
  lemma BlankFieldIgnoresEmail(f: Fields, email: Option<string>, button: Option<Button>)
    requires Blank(f.name) || Blank(f.subject) || Blank(f.message)
    ensures Submit(f.(email := email), button) == Submit(f, button) == Rejected(Notice(FillAllFields, Error))
  {
  }

  /** The sample submissions: an address without a dot after the `@` is
      refused with the email error, a plain address starts sending, and the
      same form without a submit button fails after the gate. */
  lemma SampleSubmissions(button: Button)
    ensures Submit(Fields(Some("Ann"), Some("a@b"), Some("Hi"), Some("Hello")), Some(button))
            == Rejected(Notice(EnterValidEmail, Error))
    ensures Submit(Fields(Some("Ann"), Some("a@b.com"), Some("Hi"), Some("Hello")), Some(button))
            == Sending(Button(SendingLabel, true))
    ensures Submit(Fields(Some("Ann"), Some("a@b.com"), Some("Hi"), Some("Hello")), None)
            == NoSubmitButton
  {
    Email.Samples();
  }

}
