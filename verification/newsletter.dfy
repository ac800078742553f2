/**
 * The newsletter form's submit handler without its DOM glue and timer:
 * whether a signup is accepted.
 */
module Newsletter {
  import opened Text
  import opened EmailCheck
  import ContactForm

  /** The alert shown for a rejected address. */
  const InvalidAlert: string := "Please enter a valid email address"

  /** A rejected address raises the alert and leaves the form untouched; an
      accepted one shows the "Subscribed!" confirmation. */
  datatype Outcome = Alert(text: string) | Subscribed

  /** The handler tests emptiness and then the pattern on the trimmed input. */
  function SubmitNewsletter(raw: string): (o: Outcome)
    ensures o.Subscribed? <==> IsValidEmail(Trim(raw))
    ensures o.Alert? ==> o.text == InvalidAlert
  {
    var email := Trim(raw);
    if email == [] || !IsValidEmail(email) then Alert(InvalidAlert) else Subscribed
  }

  /** The emptiness test is subsumed: dropping it changes nothing, because the
      pattern rejects the empty string. */
  lemma EmptinessCheckRedundant(raw: string)
    ensures SubmitNewsletter(raw) ==
      (if IsValidEmail(Trim(raw)) then Subscribed else Alert(InvalidAlert))
  {
  }

  /** The newsletter accepts exactly the addresses the contact form raises no
      email error for. */
  lemma AgreesWithContactForm(raw: string)
    ensures SubmitNewsletter(raw).Subscribed? <==> ContactForm.EmailError(raw).None?
  {
  }

  /** An accepted signup holds exactly one `@` and no whitespace once trimmed. */
  lemma SubscribedShape(raw: string)
    requires SubmitNewsletter(raw).Subscribed?
    ensures Occurrences(Trim(raw), '@') == 1
    ensures forall i | 0 <= i < |Trim(raw)| :: !IsWs(Trim(raw)[i])
  {
    ValidEmailShape(Trim(raw));
  }

  /** A signup typed as "not-an-email" has no `@`, so it is rejected with
      the alert. */
  lemma ExampleRejected()
    ensures SubmitNewsletter("not-an-email") == Alert(InvalidAlert)
  {
    var raw := "not-an-email";
    assert !IsWs(raw[0]) && !IsWs(raw[11]);
    TrimTight(raw);
    assert forall i | 0 <= i < |raw| :: raw[i] != '@';
    NoAtRejected(raw);
  }
}
