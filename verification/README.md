# Portfolio contact form, modelled in Dafny

The portfolio site has two small pieces of logic with a contract, both about
its contact form:

- **The contact relay** (`POST /api/contact` in `server.js`). It rejects a
  submission missing its name, email or message with a 400. Otherwise it
  composes a notification mail to the site owner and hands it to the mail
  transport. It answers 200 when the transport completes and 500 when it
  throws.
- **The client-side validator** (`FormValidator` in `main.js`).
  `validateField` trims a field's value, then applies the required check and
  the email-pattern check, and marks the field with a red or green border.
  `clearErrors` removes both borders. `handleSubmit` validates every field
  and submits only when all of them are valid.

Both are modelled as pure functions over immutable records:

- `wrappers.dfy` (`Wrappers`): `Option`, for absent request fields, an
  unset `EMAIL_USER` and a field without error text.
- `text.dfy` (`Text`): the JavaScript string behaviour the code relies on.
  - `IsSpace` is the ECMAScript WhiteSpace and LineTerminator set, which both
    `\s` and `String.prototype.trim` use.
  - `Trim` models `trim` (main.js:397).
  - `ReplaceFirst` models `replace` with a one-character pattern, which
    replaces only the first occurrence (server.js:79, 84, 90).
  - `IndexOf` is a helper of the model, not a call in the code. It gives
    the position of a character's first occurrence, and `|s|` when there is
    none, where JavaScript's `indexOf` would answer -1.
- `contact_relay.dfy` (`ContactRelay`): the request body as a `Payload` of
  `Option<string>` fields. The mail body is a list of sections (`Table` of
  `Row`s, or `Prose`). The transport's outcome is a boolean parameter and
  `EMAIL_USER` is an `Option<string>` parameter.
- `form_validator.dfy` (`FormValidator`): a `Field` record. It holds the
  value, the `type` property (`field.type`, the normalized lower-case type), `required`, the two border classes and the
  error text. `MatchesEmailRegex` reads `/^[^\s@]+@[^\s@]+\.[^\s@]+$/`
  literally as an existential split. `EmailConditions` states the pattern
  as plain string conditions, and `EmailConditionsMatchRegex` proves the two
  agree. `EmailShaped`, the `emailRegex.test` the validator calls, decides
  the pattern through those conditions.

The server checks neither that the name is non-blank nor that the email is
well-formed: `if (!name || !email || !message)` (server.js:30) tests
JavaScript truthiness only. `ContactRelay.WhitespaceOnlyIsAccepted` states
the consequence.

## Model

| member | source | states |
|---|---|---|
| Text.Trim | main.js:397 | the trimmed value is the infix of the raw value left after dropping all-whitespace prefix and suffix; it neither starts nor ends with whitespace; it is empty iff the value is all whitespace |
| Text.TrimIdempotent | main.js:397 | trimming an already trimmed value changes nothing |
| Text.ReplaceFirst | server.js:79 | `replace` with a one-character pattern keeps the length; a string without the pattern comes back unchanged; otherwise the first occurrence becomes the replacement and the text before and after it, later occurrences included, is kept |
| Text.ReplaceFirstAt | server.js:79 | when the pattern occurs at position k and nowhere before, `replace` yields the prefix before k, the replacement, and the untouched rest |
| ContactRelay.HandleContact | server.js:25-148 | status 400 iff the required check fails, and then no mail and the fixed message; otherwise exactly one composed mail is handed over, answered 200 with the 24-hours message if delivered and 500 with the failure message if not; success iff 200 |
| ContactRelay.RejectsExactlyMissingRequired | server.js:30-35 | the 400 answer comes exactly when name, email or message is absent or the empty string, with no mail attempted |
| ContactRelay.WhitespaceOnlyIsAccepted | server.js:30 | name, email and message consisting only of whitespace pass the check and a mail is composed: the server does not trim |
| ContactRelay.ComposeMail | server.js:125-131 | the mail goes to the fixed operator address, replies to the submitted email, has subject "New Contact Form Submission - " + name, and is sent from the EMAIL_USER account |
| ContactRelay.SenderAccount | server.js:126 | the sender is EMAIL_USER when set and non-empty, the operator address otherwise |
| ContactRelay.AcceptedMailAddressing | server.js:125-131 | on any accepted raw payload the attempted mail's `to`, `replyTo` and `subject` are the operator, the email and the prefixed name |
| ContactRelay.Display | server.js:79 | the shown value is the raw value when it has no hyphen, and otherwise the raw value with its first hyphen, and only that one, turned into a space |
| ContactRelay.Body | server.js:38-122 | the body has two sections, or three with Project Details in the middle when `projectType` is truthy: Contact Information with the contact rows first, the project rows second when present, the message text last |
| ContactRelay.BodySections | server.js:47-102 | every section is Contact Information, Project Details (only when the project type is truthy) or the message |
| ContactRelay.RequiredFieldsAppearVerbatim | server.js:50-100 | name and email appear unescaped as rows of the body, and the message as its text block |
| ContactRelay.CompanyRowCondition | server.js:58-63 | a Company row exists iff `company` is truthy, and then shows it as given |
| ContactRelay.ContactMethodRowCondition | server.js:64-69 | a Preferred Contact row exists iff `contactMethod` is truthy, and then shows it as given |
| ContactRelay.ProjectSectionCondition | server.js:73-95 | the Project Details section exists iff `projectType` is truthy |
| ContactRelay.BudgetRowCondition | server.js:81-86 | a Budget Range row exists iff both `projectType` and `budget` are truthy, and only ever inside Project Details |
| ContactRelay.TimelineRowCondition | server.js:87-92 | a Timeline row exists iff both `projectType` and `timeline` are truthy, and only ever inside Project Details |
| ContactRelay.ProjectValuesFirstHyphenOnly | server.js:77-92 | project type, budget and timeline rows show their value with only the first hyphen turned into a space |
| FormValidator.EmailConditionsMatchRegex | main.js:410 | the string conditions (no whitespace, exactly one `@`, non-empty local part, a `.` with text on both sides in the domain) hold of exactly the strings the regular expression matches |
| FormValidator.EmailConditionsImplyRegex | main.js:410 | a string meeting the conditions splits into the three non-empty `[^\s@]` runs the regular expression requires |
| FormValidator.RegexImpliesEmailConditions | main.js:410 | a string the regular expression matches has no whitespace, exactly one `@` with text before it, and a `.` inside the domain |
| FormValidator.EmailShaped | main.js:410-411 | `emailRegex.test(value)` is true exactly when the regular expression matches the value |
| FormValidator.ValidateField | main.js:396-429 | valid iff neither the required check nor the email check fails; the two never both fail; an invalid field carries the failing check's message; green border iff valid, red iff invalid; error text iff invalid; value, type and `required` unchanged |
| FormValidator.Decorate | main.js:417-426 | after validation exactly one border class is set, green iff valid, and the error text is shown iff invalid |
| FormValidator.OptionalBlankIsValid | main.js:399-415 | a blank field that is not required is valid, email fields included |
| FormValidator.RequiredBlankIsInvalid | main.js:397-406 | a required field holding only whitespace is invalid with "This field is required" |
| FormValidator.NonEmailValidity | main.js:402-415 | a non-email field is valid iff it is not required or holds a non-whitespace character |
| FormValidator.EmailValidity | main.js:408-415 | a non-blank email field is valid iff its trimmed value matches the pattern, and otherwise fails with "Please enter a valid email address" |
| FormValidator.ClearErrors | main.js:448-451 | neither border class is set and no error text remains; value, type and `required` unchanged |
| FormValidator.ValidateIgnoresDecoration | main.js:396-429 | the outcome depends only on value, type and `required`: revalidating, or validating after clearing, gives the same result |
| FormValidator.HandleSubmit | main.js:453-468 | every field is validated, with no short-circuit; the form is submitted iff every field is valid, otherwise "Please correct the errors above" is shown; a submitted form has no blank required field |

## Left out

- Express, body-parser, cors and nodemailer wiring, and the transporter configuration with its credentials (server.js:1-22). These are library calls. The transport is reduced to whether `sendMail` completed.
- `app.listen` and its logging (server.js:156-161), and the `console.error` of a failed send. These are process I/O.
- The health check (server.js:150-153). It answers the constant status "OK", and its only varying content is the current time.
- The "Received on" footer (server.js:104-118). It formats the clock with a locale.
- The exact HTML and CSS of the template, including the static header and footer text and `text-transform: capitalize`. These are presentation; the body is modelled as its sections and rows.
- Request-body values that are not strings (numbers, arrays, objects). Every field is an optional string. The exceptions such values would raise in `replace` are not modelled.
- Timing, and repeated requests. The relay keeps no state, so handling the same request twice composes the same mail twice.
- `showFieldError`, `clearFieldError` and `showFormError` DOM work (main.js:431-446, main.js:499-509). Only their visible effect is kept: a field's error text, and the form error message as the submit outcome. Fields that share a parent element would share one error element; the model gives each field its own.
- `submitForm` (main.js:470-485) and `showSuccessMessage`. They simulate a network call with timers, so the submit outcome stops at `Submitted`.
- `PortfolioApp`, `ProjectCards`, `AchievementTracker` and `setupInteractions` in main.js. These are animation, scrolling and observer glue with no data contract.
- The randomised particles, `animateCounter`, `debounce` and `throttle`. These rely on floating point and timers.
- Whitespace is fixed to the ECMAScript WhiteSpace and LineTerminator code points. Membership of the Unicode `Zs` category can change between Unicode versions.
