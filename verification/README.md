# Contact-form and newsletter validation, modelled in Dafny

The site's `script.js` wires a contact form and a newsletter form to submit
handlers. This project models the pure decision logic inside them:

- the email check `isValidEmail`, a test against the regular expression
  `^[^\s@]+@[^\s@]+\.[^\s@]+$`;
- the contact handler's validation step: the three inputs are trimmed, each
  gets at most one error message ("required" before "invalid" or "too short"),
  and the `isValid` flag is the conjunction of the three checks;
- the contact handler's submission gate: invalid input shows its errors, valid
  input with a filled honeypot field `_hp` is dropped silently, and only
  valid input with an empty honeypot issues the POST request;
- the newsletter handler's acceptance test on the trimmed address.

Modules, one per concern:

| file | module | contents |
|---|---|---|
| `wrappers.dfy` | `Wrappers` | `Option` |
| `text.dfy` | `Text` | the whitespace class, `Trim`, UTF-16 length, character counts |
| `email.dfy` | `EmailCheck` | `IsValidEmail` and its characterisations, a one-pass matcher |
| `contact.dfy` | `ContactForm` | field errors, `Validate`, `IsValid`, the handler's validation step, `Decide` |
| `newsletter.dfy` | `Newsletter` | the newsletter acceptance test |

Modelling choices:

- Whitespace is the ECMAScript WhiteSpace and LineTerminator set. Both
  `String.prototype.trim` and the regex escape `\s` use this set, so one
  predicate `Text.IsWs` serves both.
- `Trim` is the composition of two recursive strippers. `Text.TrimSpec` proves
  it against an independent description: the unique infix whose surrounding
  padding is all whitespace and that starts and ends with a non-whitespace
  character.
- `message.length` in the handler counts UTF-16 code units. `Text.Utf16Length`
  models that: a code point above U+FFFF counts two. The regex has no `u`
  flag, so it also runs over code units. Running it over code points, as this
  model does, gives the same answer: `@`, `.` and every whitespace character
  lie in the Basic Multilingual Plane, and a surrogate pair is two
  non-whitespace, non-`@` units.
- `EmailCheck.IsValidEmail` is the regex's meaning stated directly: there is
  an `@` index and a later `.` index that split the string into three
  non-empty parts without whitespace or `@`. JavaScript's `$` without the `m`
  flag anchors only at the end of input.
- The page's error display is a `map<Field, Problem>`. A field is a key exactly
  when its input carries the `error` class, and the value is the problem whose
  text (`ContactForm.Render`) its error span shows. The five texts are
  distinct, so the span text and the problem determine each other.
- The honeypot is compared raw (`!== ''`), so a honeypot holding only spaces
  still drops the submission. The request built from `FormData` carries the
  raw, untrimmed values, so `Send` carries the form as submitted.
- On success the handler redirects to `thank-you.html`. That is the only
  success behaviour in this code, and the model does not describe an
  inline-message variant.

## Model

| member | source | states |
|---|---|---|
| Text.IsWs | script.js:47 | the ECMAScript WhiteSpace and LineTerminator code points, the one set that `trim` strips and `\s` matches |
| Text.Trim | script.js:46-48 | `String.prototype.trim`: strip the maximal whitespace prefix, then the maximal whitespace suffix |
| Text.TrimStartSpec | script.js:46-48 | stripping the leading whitespace leaves a suffix of the input, everything removed is whitespace, and the result is empty or starts with a non-whitespace character |
| Text.TrimEndSpec | script.js:46-48 | stripping the trailing whitespace leaves a prefix of the input, everything removed is whitespace, and the result is empty or ends with a non-whitespace character |
| Text.TrimSpec | script.js:46-48 | `trim` removes a whitespace prefix and suffix, neither of which could be longer, and leaves a value with no whitespace at either end |
| Text.TrimOfUnique | script.js:46-48 | at most one string fits that description, so it defines `trim` independently of the implementation |
| Text.TrimEmptyIff | script.js:51 | a trimmed value is empty (falsy) exactly when the raw input is all whitespace |
| Text.TrimTight | script.js:46-48 | trimming leaves unchanged a value with no whitespace at either end |
| Text.TrimIdempotent | script.js:46-48 | trimming twice is the same as trimming once |
| Text.TrimPadded | script.js:46-48 | trimming whitespace padding around a core with no surrounding whitespace gives back the core |
| Text.Utf16Length | script.js:71 | `length` lies between the number of code points and twice that, and equals it exactly when no code point lies outside the Basic Multilingual Plane |
| EmailCheck.IsValidEmail | script.js:155-158 | some `@` index and a later `.` index cut the string into three non-empty parts, each free of whitespace and `@` (a part may hold further dots) |
| EmailCheck.EmailFromParts | script.js:155-158 | every `local "@" d1 "." d2` whose three parts are non-empty and free of whitespace and `@` is accepted |
| EmailCheck.EmailToParts | script.js:155-158 | every accepted string splits as `local "@" d1 "." d2` with three such parts |
| EmailCheck.ValidEmailOneAt | script.js:156 | an accepted address contains exactly one `@` |
| EmailCheck.ValidEmailNoWs | script.js:156 | an accepted address contains no whitespace |
| EmailCheck.ValidEmailShape | script.js:156 | an accepted address has at least five characters, no whitespace and one `@`, so the empty string is rejected |
| EmailCheck.ValidEmailIsTrimmed | script.js:47 | trimming an accepted address leaves it unchanged |
| EmailCheck.AtUnique | script.js:156 | two `@` positions in an accepted address are the same position |
| EmailCheck.MatchEmail | script.js:155-158 | a single left-to-right scan accepts exactly the strings the regular expression accepts |
| EmailCheck.NoAtRejected | script.js:156 | a string without `@` is rejected |
| EmailCheck.ExampleAddressValid | script.js:155-158 | "a@b.com" is accepted |
| ContactForm.Render | script.js:53-73 | the five error texts the handler writes into the error spans, one per problem |
| ContactForm.RenderInjective | script.js:53-73 | the five error texts are pairwise distinct, so a span's text identifies the problem behind it |
| ContactForm.NameError | script.js:51-55 | the name gets `NameRequired` ("Name is required") exactly when the raw input is all whitespace, and no error otherwise |
| ContactForm.EmailError | script.js:57-65 | a blank email gets `EmailRequired` ("Email is required"); a non-blank one whose trimmed value fails the pattern gets `EmailInvalid` ("Please enter a valid email address"); a trimmed value matching the pattern gets no error |
| ContactForm.MessageError | script.js:67-75 | a blank message gets `MessageRequired` ("Message is required"); a non-blank one under ten UTF-16 units after trimming gets `MessageTooShort` ("Message must be at least 10 characters long"); ten or more units gets no error |
| ContactForm.Collect | script.js:49-75 | each field is in the error map exactly when it has a problem, and maps to that problem |
| ContactForm.Validate | script.js:45-75 | the shown errors: name exactly when blank, email exactly when its trimmed value fails the pattern, message exactly when under ten units; each with the problem its precedence selects |
| ContactForm.IsValid | script.js:49-79 | the `isValid` flag holds exactly when the name is non-blank, the trimmed email matches and the trimmed message has at least ten units |
| ContactForm.ValidIffNoErrors | script.js:49-79 | the flag is true exactly when no field shows an error |
| ContactForm.ClearAll | script.js:33-43 | clearing the three tracked fields removes every earlier error mark |
| ContactForm.CheckContact | script.js:33-79 | the validation step leaves exactly `Validate(form)` on the page, whatever errors were shown before, so rerunning it on the same inputs shows the same errors; `isValid` is true exactly when none is shown |
| ContactForm.Decide | script.js:77-84 | invalid input shows its non-empty error map and sends nothing, whatever the honeypot holds; valid input with a filled honeypot is dropped silently; a request is sent exactly when the input is valid and the honeypot is empty, and it carries the raw form |
| ContactForm.LongMessageAccepted | script.js:71 | a trimmed message of at least ten code points is never too short |
| ContactForm.ExampleFieldsPass | script.js:46-75 | "Alice", "a@b.com" and "Hello there friend" each pass their check |
| ContactForm.ExampleSubmissionSends | script.js:77-108 | that form with an empty honeypot issues one request carrying exactly those values |
| Newsletter.SubmitNewsletter | script.js:130-136 | the signup is accepted exactly when the trimmed address matches the pattern; otherwise the alert text is "Please enter a valid email address" |
| Newsletter.EmptinessCheckRedundant | script.js:133 | dropping the explicit emptiness test changes no outcome |
| Newsletter.AgreesWithContactForm | script.js:133 | the newsletter accepts exactly the inputs for which the contact form shows no email error |
| Newsletter.SubscribedShape | script.js:131-133 | an accepted trimmed address has one `@` and no whitespace |
| Newsletter.ExampleRejected | script.js:130-136 | "not-an-email" is rejected with the alert |

## Left out

- DOM access: reading `.value`, toggling the `error` class and writing the
  error spans (script.js:34-43, 52-73). The error map stands for them.
- The `fetch` POST, `.json()` parsing, the redirect to `thank-you.html` and
  the error `innerHTML` (script.js:101-120). These are network I/O and
  navigation. The model ends at `Send`, so the network-error and server-error
  outcomes are not modelled.
- `FormData` and `URLSearchParams` serialisation (script.js:94-98). These are
  browser library calls. `Send` carries the raw field values instead of an
  encoded body.
- The submit button's label, `disabled` and `aria-busy` changes
  (script.js:87-91, 116-118). These are UI state.
- The newsletter's "Subscribed!" label and its two-second `setTimeout` reset
  (script.js:139-149). These are UI timing.
- The `alert` call itself (script.js:134). Only its text is modelled.
- The copyright year (script.js:3-6), the hamburger menu (script.js:9-25) and
  the `IntersectionObserver` scroll animation (script.js:161-181). These are
  browser glue with no decision logic.
- Lone surrogates: a JavaScript `.value` can hold an unpaired UTF-16
  surrogate, which a Dafny `char` cannot represent. Such a unit is a
  non-whitespace, non-`@` unit of length one for `trim`, `\s` and `.length`,
  exactly like U+FFFD, so no outcome of the handlers depends on the
  difference.
