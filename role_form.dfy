/** What the add-role and update-role dialogs have in common: the four text fields of
    the form, the per-field error messages, the field edit that clears that field's
    error, and the validation of the name and the percentage. */
module RoleForm {
  import Strings

  datatype Option<T> = None | Some(value: T)

  datatype Field = RoleField | NameField | PercentageField | LeadField

  /** The form's text fields; the percentage is kept as the text the input holds. */
  datatype FormData = FormData(role: string, name: string, percentage: string, lead: string)

  function FieldOf(form: FormData, f: Field): string
  {
    match f
    case RoleField => form.role
    case NameField => form.name
    case PercentageField => form.percentage
    case LeadField => form.lead
  }

  /** `{...form, [f]: v}`: field `f` becomes `v`, every other field is kept. */
  function SetField(form: FormData, f: Field, v: string): (r: FormData)
    ensures FieldOf(r, f) == v
    ensures forall g :: g != f ==> FieldOf(r, g) == FieldOf(form, g)
  {
    match f
    case RoleField => form.(role := v)
    case NameField => form.(name := v)
    case PercentageField => form.(percentage := v)
    case LeadField => form.(lead := v)
  }

  /** The error messages by field; the empty text stands for "no error" (an absent key
      and an empty message are both falsy). Only name and percentage have errors. */
  datatype Errors = Errors(name: string, percentage: string)

  const NoErrors := Errors("", "")

  const NameRequired := "Name is required"
  const PercentageRequired := "Percentage is required"
  const PercentageOutOfRange := "Percentage must be between 0 and 100"

  function ErrorOf(errors: Errors, f: Field): string
  {
    match f
    case NameField => errors.name
    case PercentageField => errors.percentage
    case _ => ""
  }

  /** Editing field `f` clears its error, if it has one, and no other. */
  function ClearError(errors: Errors, f: Field): (r: Errors)
    ensures ErrorOf(r, f) == ""
    ensures forall g :: g != f ==> ErrorOf(r, g) == ErrorOf(errors, g)
  {
    if ErrorOf(errors, f) != "" then
      match f
      case NameField => errors.(name := "")
      case PercentageField => errors.(percentage := "")
      case _ => errors
    else errors
  }

  /** The percentage texts the model covers: empty, or integer text. */
  predicate PercentageText(s: string)
  {
    s == "" || Strings.IsIntText(s)
  }

  /** The name error: set exactly when the name is blank once whitespace is trimmed. */
  function NameError(name: string): (e: string)
    ensures e == (if Strings.AllWhitespace(name) then NameRequired else "")
  {
    if Strings.Trim(name) == "" then NameRequired else ""
  }

  /** The percentage error: required when empty, out of range below 0 or above 100. */
  function PercentageError(percentage: string): (e: string)
    requires PercentageText(percentage)
    ensures percentage == "" ==> e == PercentageRequired
    ensures percentage != "" ==> (e == "" <==> 0 <= Strings.NumberOf(percentage) <= 100)
    ensures percentage != "" && !(0 <= Strings.NumberOf(percentage) <= 100) ==> e == PercentageOutOfRange
  {
    if percentage == "" then PercentageRequired
    else if Strings.NumberOf(percentage) < 0 || Strings.NumberOf(percentage) > 100 then PercentageOutOfRange
    else ""
  }

  /** Typing the number `n` into the percentage field passes validation exactly when
      `0 <= n <= 100`: both bounds are accepted. */
  lemma PercentageBounds(n: int)
    ensures PercentageText(Strings.IntText(n))
    ensures PercentageError(Strings.IntText(n)) == "" <==> 0 <= n <= 100
  {
    Strings.IntTextRoundTrip(n);
  }

  /** A form passes validation: a non-blank name and a percentage in [0, 100]. */
  predicate Acceptable(form: FormData)
    requires PercentageText(form.percentage)
  {
    && !Strings.AllWhitespace(form.name)
    && form.percentage != ""
    && 0 <= Strings.NumberOf(form.percentage) <= 100
  }

  /** The errors a validation pass computes: the form is valid exactly when none is set. */
  function Validate(form: FormData): (e: Errors)
    requires PercentageText(form.percentage)
    ensures e.name == NameError(form.name) && e.percentage == PercentageError(form.percentage)
    ensures e == NoErrors <==> Acceptable(form)
  {
    Errors(NameError(form.name), PercentageError(form.percentage))
  }

  /** `validateForm`'s construction of `newErrors`: each failed check sets its message. */
  method CollectErrors(form: FormData) returns (newErrors: Errors)
    requires PercentageText(form.percentage)
    ensures newErrors == Validate(form)
    ensures newErrors == NoErrors <==> Acceptable(form)
  {
    newErrors := NoErrors;
    if Strings.Trim(form.name) == "" {
      newErrors := newErrors.(name := NameRequired);
    }
    if form.percentage == "" {
      newErrors := newErrors.(percentage := PercentageRequired);
    } else if Strings.NumberOf(form.percentage) < 0 || Strings.NumberOf(form.percentage) > 100 {
      newErrors := newErrors.(percentage := PercentageOutOfRange);
    }
  }
}
