/** The contact relay (`POST /api/contact` in server.js): checks that the
    three required fields are present, composes the notification mail from
    the submission, hands it to the mail transport and answers with 200,
    400 or 500. The transport's success is an input; the mail's HTML body is
    modelled as its list of sections and rows rather than as markup. */
module ContactRelay {
  import opened Wrappers
  import opened Text

  /** The operator's mailbox: the fixed recipient, and the sender account
      when EMAIL_USER is not set. */
  const OperatorAddress: string := "jannuhans8@gmail.com"
  const SubjectPrefix: string := "New Contact Form Submission - "
  const SenderName: string := "\"Portfolio Contact\""
  const RequiredFieldsMessage: string := "Name, email, and message are required"
  const SentMessage: string := "Email sent successfully! I will get back to you within 24 hours."
  const FailedMessage: string := "Failed to send email. Please try again later or contact directly."

  const ContactHeading: string := "Contact Information"
  const ProjectHeading: string := "Project Details"
  const MessageHeading: string := "Message"

  const NameLabel: string := "Full Name"
  const EmailLabel: string := "Email Address"
  const CompanyLabel: string := "Company"
  const ContactMethodLabel: string := "Preferred Contact"
  const ProjectTypeLabel: string := "Project Type"
  const BudgetLabel: string := "Budget Range"
  const TimelineLabel: string := "Timeline"

  /** The request body: every field may be absent. */
  datatype Payload = Payload(
    name: Option<string>,
    email: Option<string>,
    company: Option<string>,
    projectType: Option<string>,
    budget: Option<string>,
    timeline: Option<string>,
    message: Option<string>,
    contactMethod: Option<string>)

  /** A labelled row of one of the body's tables. */
  datatype Row = Row(caption: string, value: string)

  /** A section of the HTML body: a headed table of rows, or a headed block
      of free text. */
  datatype Section = Table(heading: string, rows: seq<Row>) | Prose(heading: string, text: string)

  /** The `mailOptions` handed to the transport. */
  datatype Mail = Mail(from: string, to: string, subject: string, replyTo: string, body: seq<Section>)

  /** The HTTP answer: status code and the JSON body's two fields. */
  datatype Response = Response(status: nat, success: bool, message: string)

  /** One request's handling: the mail handed to the transport (None when
      none was) and the answer. */
  datatype Handling = Handling(attempted: Option<Mail>, response: Response)

  /** JavaScript truthiness of a string field: present and not empty. A
      string of spaces is truthy. */
  predicate Truthy(v: Option<string>)
  {
    v.Some? && v.value != ""
  }

  /** The guard of the required-field check passes. */
  predicate HasRequired(p: Payload)
  {
    Truthy(p.name) && Truthy(p.email) && Truthy(p.message)
  }

  /** How an option value is displayed: `value.replace('-', ' ')`, which
      turns the first hyphen, and only that one, into a space. */
  function Display(value: string): (d: string)
    ensures |d| == |value|
    ensures HyphenDisplay(value, d)
  {
    var k := IndexOf(value, '-');
    assert k < |value| ==> value[..k] + " " + value[k + 1..] == ReplaceFirst(value, '-', ' ');
    ReplaceFirst(value, '-', ' ')
  }

  /** Rows of the Contact Information table: name and email always, then
      company and preferred contact method when given. */
  function ContactRows(p: Payload): (rows: seq<Row>)
    requires HasRequired(p)
  {
    [Row(NameLabel, p.name.value), Row(EmailLabel, p.email.value)]
    + (if Truthy(p.company) then [Row(CompanyLabel, p.company.value)] else [])
    + (if Truthy(p.contactMethod) then [Row(ContactMethodLabel, p.contactMethod.value)] else [])
  }

  /** Rows of the Project Details table: the project type, then budget and
      timeline when given, each displayed with its first hyphen replaced. */
  function ProjectRows(p: Payload): (rows: seq<Row>)
    requires Truthy(p.projectType)
  {
    [Row(ProjectTypeLabel, Display(p.projectType.value))]
    + (if Truthy(p.budget) then [Row(BudgetLabel, Display(p.budget.value))] else [])
    + (if Truthy(p.timeline) then [Row(TimelineLabel, Display(p.timeline.value))] else [])
  }

  /** The body of the mail: Contact Information, Project Details when a
      project type is given, and the message. */
  function Body(p: Payload): (body: seq<Section>)
    requires HasRequired(p)
    ensures |body| == if Truthy(p.projectType) then 3 else 2
    ensures body[0] == Table(ContactHeading, ContactRows(p))
    ensures Truthy(p.projectType) ==> body[1] == Table(ProjectHeading, ProjectRows(p))
    ensures body[|body| - 1] == Prose(MessageHeading, p.message.value)
  {
    [Table(ContactHeading, ContactRows(p))]
    + (if Truthy(p.projectType) then [Table(ProjectHeading, ProjectRows(p))] else [])
    + [Prose(MessageHeading, p.message.value)]
  }

  /** The sender account: EMAIL_USER when set to a non-empty value, the
      operator's address otherwise. */
  function SenderAccount(emailUser: Option<string>): (a: string)
    ensures Truthy(emailUser) ==> a == emailUser.value
    ensures !Truthy(emailUser) ==> a == OperatorAddress
  {
    if Truthy(emailUser) then emailUser.value else OperatorAddress
  }

  /** `mailOptions` for a submission that passed the required check. */
  function ComposeMail(p: Payload, emailUser: Option<string>): (m: Mail)
    requires HasRequired(p)
    ensures m.to == OperatorAddress
    ensures m.replyTo == p.email.value
    ensures m.subject == SubjectPrefix + p.name.value
    ensures m.from == SenderName + " <" + SenderAccount(emailUser) + ">"
    ensures m.body == Body(p)
  {
    Mail(
      from := SenderName + " <" + SenderAccount(emailUser) + ">",
      to := OperatorAddress,
      subject := SubjectPrefix + p.name.value,
      replyTo := p.email.value,
      body := Body(p))
  }

  /** The handler. `emailUser` is the EMAIL_USER setting and `delivered`
      whether `sendMail` completed rather than threw. A payload missing a
      required field is answered 400 with nothing sent; otherwise exactly
      one mail is handed to the transport and the answer is 200 or 500
      according to the transport. */
  function HandleContact(p: Payload, emailUser: Option<string>, delivered: bool): (h: Handling)
    ensures h.response.status == 400 <==> !HasRequired(p)
    ensures !HasRequired(p) ==>
              h == Handling(None, Response(400, false, RequiredFieldsMessage))
    ensures HasRequired(p) ==> h.attempted == Some(ComposeMail(p, emailUser))
    ensures HasRequired(p) && delivered ==> h.response == Response(200, true, SentMessage)
    ensures HasRequired(p) && !delivered ==> h.response == Response(500, false, FailedMessage)
    ensures h.response.success <==> h.response.status == 200
  {
    if !HasRequired(p) then
      Handling(None, Response(400, false, RequiredFieldsMessage))
    else
      var mail := ComposeMail(p, emailUser);
      if delivered then
        Handling(Some(mail), Response(200, true, SentMessage))
      else
        Handling(Some(mail), Response(500, false, FailedMessage))
  }

  // ---------------------------------------------------------------------
  // Properties of the handler, stated on the raw payload

  /** `body` has a table row labelled `caption`. */
  ghost predicate HasRow(body: seq<Section>, caption: string)
  {
    exists s, row :: s in body && s.Table? && row in s.rows && row.caption == caption
  }

  /** `body` has a table row labelled `caption` showing `value`. */
  ghost predicate ShowsRow(body: seq<Section>, caption: string, value: string)
  {
    exists s :: s in body && s.Table? && Row(caption, value) in s.rows
  }

  /** `body` has a section headed `heading`. */
  ghost predicate HasSection(body: seq<Section>, heading: string)
  {
    exists s :: s in body && s.heading == heading
  }

  /** Every row labelled `caption` sits in a table headed `heading`. */
  ghost predicate OnlyUnder(body: seq<Section>, caption: string, heading: string)
  {
    forall s, row :: s in body && s.Table? && row in s.rows && row.caption == caption ==> s.heading == heading
  }

  /** The 400 answer comes exactly when name, email or message is absent or
      the empty string, and then nothing is handed to the transport. */
  lemma RejectsExactlyMissingRequired(p: Payload, emailUser: Option<string>, delivered: bool)
    ensures var h := HandleContact(p, emailUser, delivered);
            && (h.response.status == 400 <==>
                  || p.name == None || p.name == Some("")
                  || p.email == None || p.email == Some("")
                  || p.message == None || p.message == Some(""))
            && (h.response.status == 400 ==>
                  h.attempted == None && h.response.message == RequiredFieldsMessage)
  {
  }

  /** The server does not trim: name, email and message made only of
      whitespace pass the required check and a mail is composed. */
  lemma WhitespaceOnlyIsAccepted(p: Payload, emailUser: Option<string>, delivered: bool)
    requires p.name.Some? && p.name.value != "" && AllSpace(p.name.value)
    requires p.email.Some? && p.email.value != "" && AllSpace(p.email.value)
    requires p.message.Some? && p.message.value != "" && AllSpace(p.message.value)
    ensures HandleContact(p, emailUser, delivered).response.status != 400
    ensures HandleContact(p, emailUser, delivered).attempted.Some?
  {
  }

  /** For an accepted payload the mail goes to the operator, replies go to
      the submitter, and the subject names the submitter. */
  lemma AcceptedMailAddressing(p: Payload, emailUser: Option<string>, delivered: bool)
    requires p.name.Some? && p.name.value != ""
    requires p.email.Some? && p.email.value != ""
    requires p.message.Some? && p.message.value != ""
    ensures var h := HandleContact(p, emailUser, delivered);
            && h.attempted.Some?
            && h.attempted.value.to == OperatorAddress
            && h.attempted.value.replyTo == p.email.value
            && h.attempted.value.subject == "New Contact Form Submission - " + p.name.value
  {
  }

  /** Name, email and message always appear, unescaped, in the body of an
      accepted submission. */
  lemma RequiredFieldsAppearVerbatim(p: Payload)
    requires HasRequired(p)
    ensures ShowsRow(Body(p), NameLabel, p.name.value)
    ensures ShowsRow(Body(p), EmailLabel, p.email.value)
    ensures Prose(MessageHeading, p.message.value) in Body(p)
  {
  }

  /** Every section of the body is one of the three, and the table
      sections are exactly Contact Information and Project Details. */
  lemma BodySections(p: Payload, s: Section)
    requires HasRequired(p)
    requires s in Body(p)
    ensures s == Table(ContactHeading, ContactRows(p))
            || (Truthy(p.projectType) && s == Table(ProjectHeading, ProjectRows(p)))
            || s == Prose(MessageHeading, p.message.value)
  {
  }

  /** The Company row is present exactly when `company` is truthy, and then
      shows it as given. */
  lemma CompanyRowCondition(p: Payload)
    requires HasRequired(p)
    ensures HasRow(Body(p), CompanyLabel) <==> Truthy(p.company)
    ensures Truthy(p.company) ==> ShowsRow(Body(p), CompanyLabel, p.company.value)
  {
  }

  /** The Preferred Contact row is present exactly when `contactMethod` is
      truthy, and then shows it as given. */
  lemma ContactMethodRowCondition(p: Payload)
    requires HasRequired(p)
    ensures HasRow(Body(p), ContactMethodLabel) <==> Truthy(p.contactMethod)
    ensures Truthy(p.contactMethod) ==> ShowsRow(Body(p), ContactMethodLabel, p.contactMethod.value)
  {
  }

  /** The Project Details section is present exactly when `projectType` is
      truthy. */
  lemma ProjectSectionCondition(p: Payload)
    requires HasRequired(p)
    ensures HasSection(Body(p), ProjectHeading) <==> Truthy(p.projectType)
  {
  }

  /** The Budget Range row is present exactly when both `projectType` and
      `budget` are truthy, and only ever inside Project Details: a budget
      given without a project type is dropped. */
  lemma BudgetRowCondition(p: Payload)
    requires HasRequired(p)
    ensures HasRow(Body(p), BudgetLabel) <==> Truthy(p.projectType) && Truthy(p.budget)
    ensures OnlyUnder(Body(p), BudgetLabel, ProjectHeading)
  {
  }

  /** The Timeline row is present exactly when both `projectType` and
      `timeline` are truthy, and only ever inside Project Details: a
      timeline given without a project type is dropped. */
  lemma TimelineRowCondition(p: Payload)
    requires HasRequired(p)
    ensures HasRow(Body(p), TimelineLabel) <==> Truthy(p.projectType) && Truthy(p.timeline)
    ensures OnlyUnder(Body(p), TimelineLabel, ProjectHeading)
  {
  }

  /** Project type, budget and timeline are displayed with their first
      hyphen turned into a space and every later hyphen kept. */
  lemma ProjectValuesFirstHyphenOnly(p: Payload)
    requires HasRequired(p) && Truthy(p.projectType)
    ensures var shown := Display(p.projectType.value);
            && ShowsRow(Body(p), ProjectTypeLabel, shown)
            && HyphenDisplay(p.projectType.value, shown)
    ensures Truthy(p.budget) ==>
              var shown := Display(p.budget.value);
              ShowsRow(Body(p), BudgetLabel, shown) && HyphenDisplay(p.budget.value, shown)
    ensures Truthy(p.timeline) ==>
              var shown := Display(p.timeline.value);
              ShowsRow(Body(p), TimelineLabel, shown) && HyphenDisplay(p.timeline.value, shown)
  {
  }

  /** `shown` is `value` with the first hyphen, if any, turned into a
      space: a hyphen-free value is unchanged, and otherwise the value is
      `before + "-" + after` with no hyphen in `before` and `shown` is
      `before + " " + after`, hyphens in `after` included. */
  ghost predicate HyphenDisplay(value: string, shown: string)
  {
    || ('-' !in value && shown == value)
    || exists k :: 0 <= k < |value| && value[k] == '-' && '-' !in value[..k]
                   && shown == value[..k] + " " + value[k + 1..]
  }
}
