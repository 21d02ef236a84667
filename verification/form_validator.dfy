/** The contact page's client-side validator (`FormValidator` in main.js):
    per-field validation on blur, clearing on input, and the all-fields check
    on submit. A field is a value record; the DOM state the validator touches
    (the two border classes and the field's error text) is part of that
    record, so every operation is a pure function from a field to a field. */
module FormValidator {
  import opened Wrappers
  import opened Text

  const RequiredMessage: string := "This field is required"
  const InvalidEmailMessage: string := "Please enter a valid email address"
  const FormErrorMessage: string := "Please correct the errors above"

  /** The two border classes the validator toggles: `border-red-500` and
      `border-green-500`. */
  datatype Borders = Borders(red: bool, green: bool)

  /** An `input` or `textarea` of the form: its raw value, its `type`
      property (`field.type`: the lower-cased attribute, "text" when the
      attribute is missing or unknown, "textarea" for a textarea), whether it
      carries `required`, its border classes and the text of its
      `.error-message` element (None when there is none). */
  datatype Field = Field(
    value: string,
    inputType: string,
    required: bool,
    borders: Borders,
    errorText: Option<string>)

  /** What `validateField` returns (`valid`), the message it decided on
      (empty when valid) and the field as it leaves it. */
  datatype FieldCheck = FieldCheck(valid: bool, message: string, after: Field)

  /** What `handleSubmit` does once every field is checked. */
  datatype SubmitOutcome = Submitted | FormError(message: string)

  // ---------------------------------------------------------------------
  // The email pattern /^[^\s@]+@[^\s@]+\.[^\s@]+$/

  /** The character class `[^\s@]`. */
  predicate InClass(c: char)
  {
    !IsSpace(c) && c != '@'
  }

  /** Every character of `s` at a position in [lo, hi) is in `[^\s@]`. */
  predicate ClassBetween(s: string, lo: int, hi: int)
    requires 0 <= lo && hi <= |s|
  {
    forall k :: lo <= k < hi ==> InClass(s[k])
  }

  /** The regular expression read literally: `s` splits at an `@` at `i`
      and a `.` at `j` into three non-empty runs of `[^\s@]`. */
  ghost predicate MatchesEmailRegex(s: string)
  {
    exists i, j :: EmailSplit(s, i, j)
  }

  ghost predicate EmailSplit(s: string, i: int, j: int)
  {
    && 0 < i && i + 1 < j && j + 1 < |s|
    && s[i] == '@' && s[j] == '.'
    && ClassBetween(s, 0, i) && ClassBetween(s, i + 1, j) && ClassBetween(s, j + 1, |s|)
  }

  /** Number of occurrences of `c` in `s`. */
  function Count(s: string, c: char): (n: nat)
    ensures n <= |s|
    ensures n == 0 <==> c !in s
  {
    if s == [] then 0
    else (if s[0] == c then 1 else 0) + Count(s[1..], c)
  }

  /** `c` occurs exactly once iff it does not occur after its first
      occurrence. */
  lemma {:induction false} CountOnce(s: string, c: char)
    requires c in s
    ensures Count(s, c) == 1 <==> c !in s[IndexOf(s, c) + 1..]
  {
    if s[0] == c {
      assert s[IndexOf(s, c) + 1..] == s[1..];
    } else {
      assert c in s[1..];
      CountOnce(s[1..], c);
      assert s[1..][IndexOf(s[1..], c) + 1..] == s[IndexOf(s, c) + 1..];
    }
  }

  /** The pattern as plain string conditions: no whitespace, exactly one
      `@`, something before it, and after it a domain holding a `.` with
      text on both sides. */
  predicate EmailConditions(s: string)
  {
    && (forall k :: 0 <= k < |s| ==> !IsSpace(s[k]))
    && Count(s, '@') == 1
    && var at := IndexOf(s, '@');
       && at > 0
       && exists j :: at + 1 < j < |s| - 1 && s[j] == '.'
  }

  /** A string meeting the conditions splits as the regular expression
      requires, at its one `@` and at the `.` found in the domain. */
  lemma EmailConditionsImplyRegex(s: string)
    requires EmailConditions(s)
    ensures MatchesEmailRegex(s)
  {
    var at := IndexOf(s, '@');
    CountOnce(s, '@');
    var j :| at + 1 < j < |s| - 1 && s[j] == '.';
    forall k | 0 <= k < |s| && k != at ensures InClass(s[k]) {
      if k > at {
        assert s[k] == s[at + 1..][k - at - 1];
      }
    }
    assert EmailSplit(s, at, j);
  }

  /** A string the regular expression matches meets the conditions: its
      `@` is the first one, and none follows it. */
  lemma RegexImpliesEmailConditions(s: string)
    requires MatchesEmailRegex(s)
    ensures EmailConditions(s)
  {
    var i, j :| EmailSplit(s, i, j);
    var at := IndexOf(s, '@');
    assert at == i;
    var domain := s[at + 1..];
    assert '@' !in domain by {
      forall k | 0 <= k < |domain| ensures domain[k] != '@' {
        assert domain[k] == s[at + 1 + k];
      }
    }
    CountOnce(s, '@');
    assert at + 1 < j < |s| - 1 && s[j] == '.';
  }

  /** The string conditions hold of exactly the strings the regular
      expression matches. */
  lemma EmailConditionsMatchRegex(s: string)
    ensures EmailConditions(s) <==> MatchesEmailRegex(s)
  {
    if EmailConditions(s) {
      EmailConditionsImplyRegex(s);
    }
    if MatchesEmailRegex(s) {
      RegexImpliesEmailConditions(s);
    }
  }

  /** `emailRegex.test(value)`, decided by the string conditions: true
      exactly when the regular expression matches. */
  function EmailShaped(s: string): (b: bool)
    ensures b <==> MatchesEmailRegex(s)
  {
    EmailConditionsMatchRegex(s);
    EmailConditions(s)
  }

  // ---------------------------------------------------------------------
  // validateField, clearErrors, handleSubmit

  /** The required check fails: a `required` field whose trimmed value is
      empty. */
  predicate RequiredFails(f: Field)
  {
    f.required && Trim(f.value) == ""
  }

  /** The email check fails: an `email` field whose trimmed value is
      non-empty and does not match the pattern. */
  ghost predicate EmailFails(f: Field)
  {
    f.inputType == "email" && Trim(f.value) != "" && !MatchesEmailRegex(Trim(f.value))
  }

  /** The border classes and error text a field shows after validation:
      green and no error text when valid, red and the message otherwise. */
  function Decorate(f: Field, valid: bool, message: string): (g: Field)
    ensures g.borders.green == valid && g.borders.red == !valid
    ensures g.errorText == if valid then None else Some(message)
    ensures g.value == f.value && g.inputType == f.inputType && g.required == f.required
  {
    if valid then
      f.(borders := Borders(red := false, green := true), errorText := None)
    else
      f.(borders := Borders(red := true, green := false), errorText := Some(message))
  }

  /** `validateField`: trims the value, runs the required check and then the
      email check, each of which may overwrite the outcome, and decorates
      the field. The field is valid exactly when neither check fails; an
      invalid field carries the message of the check that failed, and no
      field can fail both (one needs an empty value, the other a non-empty
      one). */
  function ValidateField(f: Field): (r: FieldCheck)
    ensures r.valid <==> !RequiredFails(f) && !EmailFails(f)
    ensures !(RequiredFails(f) && EmailFails(f))
    ensures RequiredFails(f) ==> r.message == RequiredMessage
    ensures EmailFails(f) ==> r.message == InvalidEmailMessage
    ensures r.valid ==> r.message == ""
    ensures r.after.borders.green <==> r.valid
    ensures r.after.borders.red <==> !r.valid
    ensures r.after.errorText == if r.valid then None else Some(r.message)
    ensures r.after.value == f.value && r.after.inputType == f.inputType
    ensures r.after.required == f.required
  {
    var value := Trim(f.value);
    var (valid0, message0) :=
      if f.required && value == "" then (false, RequiredMessage) else (true, "");
    var (valid, message) :=
      if f.inputType == "email" && value != "" && !EmailShaped(value)
      then (false, InvalidEmailMessage)
      else (valid0, message0);
    FieldCheck(valid, message, Decorate(f, valid, message))
  }

  /** A blank field that is not `required` is valid, whatever its type. */
  lemma OptionalBlankIsValid(f: Field)
    requires !f.required && AllSpace(f.value)
    ensures ValidateField(f).valid
    ensures ValidateField(f).after.borders == Borders(red := false, green := true)
  {
  }

  /** A `required` field holding only whitespace is rejected as missing:
      trimming happens before the check. */
  lemma RequiredBlankIsInvalid(f: Field)
    requires f.required && AllSpace(f.value)
    ensures !ValidateField(f).valid
    ensures ValidateField(f).message == RequiredMessage
    ensures ValidateField(f).after.errorText == Some(RequiredMessage)
  {
  }

  /** A field that is not of type `email` is valid exactly when it is not
      `required` or holds some non-whitespace character. */
  lemma NonEmailValidity(f: Field)
    requires f.inputType != "email"
    ensures ValidateField(f).valid <==> !f.required || !AllSpace(f.value)
  {
  }

  /** A non-blank `email` field is valid exactly when its trimmed value
      matches the pattern, and is otherwise rejected with the email
      message. */
  lemma EmailValidity(f: Field)
    requires f.inputType == "email" && !AllSpace(f.value)
    ensures ValidateField(f).valid <==> MatchesEmailRegex(Trim(f.value))
    ensures !ValidateField(f).valid ==> ValidateField(f).message == InvalidEmailMessage
  {
  }

  /** `clearErrors`: removes both border classes and the error text, and
      leaves everything else alone. */
  function ClearErrors(f: Field): (g: Field)
    ensures !g.borders.red && !g.borders.green
    ensures g.errorText == None
    ensures g.value == f.value && g.inputType == f.inputType && g.required == f.required
  {
    f.(borders := Borders(red := false, green := false), errorText := None)
  }

  /** Validation depends on the value, type and `required` only: validating
      twice, or after clearing, gives the same outcome and the same field. */
  lemma ValidateIgnoresDecoration(f: Field)
    ensures ValidateField(ValidateField(f).after) == ValidateField(f)
    ensures ValidateField(ClearErrors(f)) == ValidateField(f)
  {
  }

  /** A `required` field that passes validation holds some non-whitespace
      character. */
  lemma ValidRequiredIsFilled(f: Field)
    requires f.required && ValidateField(f).valid
    ensures !AllSpace(f.value)
  {
  }

  /** `handleSubmit`: validates every field, without stopping at the first
      invalid one, and submits only when all of them are valid; otherwise
      it shows the form error. */
  method HandleSubmit(form: seq<Field>) returns (after: seq<Field>, outcome: SubmitOutcome)
    ensures |after| == |form|
    ensures forall k :: 0 <= k < |form| ==> after[k] == ValidateField(form[k]).after
    ensures outcome == Submitted <==> forall k :: 0 <= k < |form| ==> ValidateField(form[k]).valid
    ensures outcome != Submitted ==> outcome == FormError(FormErrorMessage)
    ensures outcome == Submitted ==>
              forall k :: 0 <= k < |form| && form[k].required ==> !AllSpace(form[k].value)
  {
    var isFormValid := true;
    after := [];
    var i := 0;
    while i < |form|
      invariant 0 <= i <= |form|
      invariant |after| == i
      invariant forall k :: 0 <= k < i ==> after[k] == ValidateField(form[k]).after
      invariant isFormValid <==> forall k :: 0 <= k < i ==> ValidateField(form[k]).valid
    {
      var check := ValidateField(form[i]);
      if !check.valid {
        isFormValid := false;
      }
      after := after + [check.after];
      i := i + 1;
    }
    if isFormValid {
      forall k | 0 <= k < |form| && form[k].required ensures !AllSpace(form[k].value) {
        ValidRequiredIsFilled(form[k]);
      }
      outcome := Submitted;
    } else {
      outcome := FormError(FormErrorMessage);
    }
  }
}
