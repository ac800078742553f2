/**
 * The contact form's submit handler without its DOM and network glue: field
 * validation with one message per failing field, and the gate that decides
 * whether a request is issued.
 */
module ContactForm {
  import opened Wrappers
  import opened Text
  import opened EmailCheck

  datatype Field = Name | Email | Message

  /** The raw input values at submission time, including the hidden
      anti-spam field `_hp`. */
  datatype Form = Form(name: string, email: string, message: string, honeypot: string)

  /** The five error messages the handler can show. */
  datatype Problem =
    | NameRequired
    | EmailRequired
    | EmailInvalid
    | MessageRequired
    | MessageTooShort

  /** The text written into a field's error span. */
  function Render(p: Problem): string {
    match p
    case NameRequired => "Name is required"
    case EmailRequired => "Email is required"
    case EmailInvalid => "Please enter a valid email address"
    case MessageRequired => "Message is required"
    case MessageTooShort => "Message must be at least 10 characters long"
  }

  /** Distinct problems render distinct texts, so a span's text identifies
      the problem. */
  lemma RenderInjective(p: Problem, q: Problem)
    requires Render(p) == Render(q)
    ensures p == q
  {
    assert |Render(p)| == |Render(q)|;
  }

  /** Minimum message length, in UTF-16 code units. */
  const MinMessageLength: nat := 10

  /** The error for the name input: present exactly when the input is blank. */
  function NameError(raw: string): (e: Option<Problem>)
    ensures e.Some? <==> AllWs(raw)
    ensures e.Some? ==> e.value == NameRequired
  {
    TrimEmptyIff(raw);
    if Trim(raw) == [] then Some(NameRequired) else None
  }

  /** The error for the email input: "required" takes precedence over
      "invalid", and an input whose trimmed value matches the pattern has
      none. */
  function EmailError(raw: string): (e: Option<Problem>)
    ensures e == Some(EmailRequired) <==> AllWs(raw)
    ensures e == Some(EmailInvalid) <==> !AllWs(raw) && !IsValidEmail(Trim(raw))
    ensures e == None <==> IsValidEmail(Trim(raw))
  {
    TrimEmptyIff(raw);
    var email := Trim(raw);
    if email == [] then Some(EmailRequired)
    else if !IsValidEmail(email) then Some(EmailInvalid)
    else None
  }

  /** The error for the message input: "required" takes precedence over
      "too short", and a trimmed value of at least ten UTF-16 code units has
      none. */
  function MessageError(raw: string): (e: Option<Problem>)
    ensures e == Some(MessageRequired) <==> AllWs(raw)
    ensures e == Some(MessageTooShort) <==> !AllWs(raw) && Utf16Length(Trim(raw)) < MinMessageLength
    ensures e == None <==> Utf16Length(Trim(raw)) >= MinMessageLength
  {
    TrimEmptyIff(raw);
    var message := Trim(raw);
    if message == [] then Some(MessageRequired)
    else if Utf16Length(message) < MinMessageLength then Some(MessageTooShort)
    else None
  }

  /** `errs` with field `f` marked when `e` holds a message. */
  function Mark(errs: map<Field, Problem>, f: Field, e: Option<Problem>): map<Field, Problem> {
    if e.Some? then errs[f := e.value] else errs
  }

  /** The error map holding each field's message, if any. */
  function Collect(name: Option<Problem>, email: Option<Problem>, message: Option<Problem>): (errs: map<Field, Problem>)
    ensures Name in errs <==> name.Some?
    ensures Email in errs <==> email.Some?
    ensures Message in errs <==> message.Some?
    ensures Name in errs ==> errs[Name] == name.value
    ensures Email in errs ==> errs[Email] == email.value
    ensures Message in errs ==> errs[Message] == message.value
  {
    Mark(Mark(Mark(map[], Name, name), Email, email), Message, message)
  }

  /** The error messages shown for `form`: one entry per failing field. */
  function Validate(form: Form): (errs: map<Field, Problem>)
    ensures Name in errs <==> AllWs(form.name)
    ensures Email in errs <==> !IsValidEmail(Trim(form.email))
    ensures Message in errs <==> Utf16Length(Trim(form.message)) < MinMessageLength
    ensures Name in errs ==> errs[Name] == NameRequired
    ensures Email in errs ==> errs[Email] == if AllWs(form.email) then EmailRequired else EmailInvalid
    ensures Message in errs ==> errs[Message] == if AllWs(form.message) then MessageRequired else MessageTooShort
  {
    Collect(NameError(form.name), EmailError(form.email), MessageError(form.message))
  }

  /** The handler's `isValid` flag: the conjunction of the three field checks. */
  function IsValid(form: Form): (ok: bool)
    ensures ok <==> && !AllWs(form.name)
                    && IsValidEmail(Trim(form.email))
                    && Utf16Length(Trim(form.message)) >= MinMessageLength
  {
    NameError(form.name).None? && EmailError(form.email).None? && MessageError(form.message).None?
  }

  /** The flag and the error map agree: a form is valid exactly when no
      field shows an error. */
  lemma ValidIffNoErrors(form: Form)
    ensures IsValid(form) <==> Validate(form) == map[]
  {
    var errs := Validate(form);
    if !IsValid(form) {
      assert Name in errs || Email in errs || Message in errs;
    }
  }

  /** Clearing the three tracked fields removes every earlier mark. */
  lemma ClearAll(shown: map<Field, Problem>)
    ensures shown - {Name, Email, Message} == map[]
  {
    var cleared := shown - {Name, Email, Message};
    forall f | f in cleared
      ensures f in {Name, Email, Message}
    {
      match f
      case Name =>
      case Email =>
      case Message =>
    }
  }

  /** Marking the fields of a cleared state in order yields `Collect`. */
  lemma MarkCleared(cleared: map<Field, Problem>, name: Option<Problem>, email: Option<Problem>, message: Option<Problem>)
    requires cleared == map[]
    ensures Mark(Mark(Mark(cleared, Name, name), Email, email), Message, message) == Collect(name, email, message)
  {
  }

  /** The validation step of the submit handler. `shown` is the error state
      left on the page by an earlier attempt (a field is marked and its
      message span filled exactly when it is a key); the handler clears it,
      then checks the three fields in order, marking each failing one and
      dropping the `isValid` flag. */
  method CheckContact(shown: map<Field, Problem>, form: Form) returns (errs: map<Field, Problem>, isValid: bool)
    ensures errs == Validate(form)
    ensures isValid <==> errs == map[]
  {
    errs := shown - {Name, Email, Message};
    ClearAll(shown);
    isValid := true;
    var name := Trim(form.name);
    var email := Trim(form.email);
    var message := Trim(form.message);

    var nameMsg: Option<Problem> := None;
    if name == [] {
      nameMsg := Some(NameRequired);
      isValid := false;
    }
    errs := Mark(errs, Name, nameMsg);

    var emailMsg: Option<Problem> := None;
    if email == [] {
      emailMsg := Some(EmailRequired);
      isValid := false;
    } else if !IsValidEmail(email) {
      emailMsg := Some(EmailInvalid);
      isValid := false;
    }
    errs := Mark(errs, Email, emailMsg);

    var messageMsg: Option<Problem> := None;
    if message == [] {
      messageMsg := Some(MessageRequired);
      isValid := false;
    } else if Utf16Length(message) < MinMessageLength {
      messageMsg := Some(MessageTooShort);
      isValid := false;
    }
    errs := Mark(errs, Message, messageMsg);

    assert nameMsg == NameError(form.name);
    assert emailMsg == EmailError(form.email);
    assert messageMsg == MessageError(form.message);
    MarkCleared(shown - {Name, Email, Message}, nameMsg, emailMsg, messageMsg);
    assert Validate(form) == Collect(nameMsg, emailMsg, messageMsg);
    ValidIffNoErrors(form);
  }

  /** What one press of the submit button leads to. */
  datatype Outcome =
    | ShowErrors(errors: map<Field, Problem>)
    | SilentDrop
    | Send(request: Form)

  /** The submission gate: invalid input shows its errors whatever the
      honeypot holds; valid input with a filled honeypot is dropped silently;
      otherwise one request carrying the raw (untrimmed) field values is
      issued. */
  function Decide(form: Form): (o: Outcome)
    ensures o.ShowErrors? <==> !IsValid(form)
    ensures o.ShowErrors? ==> o.errors == Validate(form) && o.errors != map[]
    ensures o.SilentDrop? <==> IsValid(form) && form.honeypot != ""
    ensures o.Send? <==> IsValid(form) && form.honeypot == ""
    ensures o.Send? <==> && !AllWs(form.name)
                         && IsValidEmail(Trim(form.email))
                         && Utf16Length(Trim(form.message)) >= MinMessageLength
                         && form.honeypot == ""
    ensures o.Send? ==> o.request == form
  {
    ValidIffNoErrors(form);
    var errs := Validate(form);
    if errs != map[] then ShowErrors(errs)
    else if form.honeypot != "" then SilentDrop
    else Send(form)
  }

  /** A message of at least ten characters after trimming is long enough,
      whatever its characters. */
  lemma LongMessageAccepted(raw: string)
    requires |Trim(raw)| >= MinMessageLength
    ensures MessageError(raw) == None
  {
  }

  /** A contact with name "Alice", email "a@b.com" and message
      "Hello there friend" passes all three field checks. */
  lemma ExampleFieldsPass()
    ensures !AllWs("Alice")
    ensures IsValidEmail(Trim("a@b.com"))
    ensures Utf16Length(Trim("Hello there friend")) >= MinMessageLength
  {
    var name, email, message := "Alice", "a@b.com", "Hello there friend";
    assert !IsWs(name[0]);
    assert !IsWs(message[0]) && !IsWs(message[17]);
    TrimTight(message);
    ExampleAddressValid();
    ValidEmailIsTrimmed(email);
  }

  /** That contact, submitted with the honeypot left empty, issues one request
      carrying exactly the values typed. */
  lemma ExampleSubmissionSends()
    ensures Decide(Form("Alice", "a@b.com", "Hello there friend", ""))
         == Send(Form("Alice", "a@b.com", "Hello there friend", ""))
  {
    ExampleFieldsPass();
  }
}
