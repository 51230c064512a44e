/** The add-role dialog: whether it is open, the form and its errors. Closing and a
    successful submit both reset the form to its defaults; an invalid submit only shows
    the errors. */
module AddButton {
  import opened RoleForm
  import Roles

  /** Role "Vice President", lead "Y", empty name and percentage. */
  function DefaultForm(): FormData
  {
    FormData(Roles.Label(Roles.VicePresident), "", "", "Y")
  }

  class AddRoleDialog {
    var open: bool
    var form: FormData
    var errors: Errors

    ghost predicate Valid()
      reads this
    {
      PercentageText(form.percentage)
    }

    /** Closed, default form, no errors. */
    constructor ()
      ensures Valid()
      ensures !open && form == DefaultForm() && errors == NoErrors
    {
      open, form, errors := false, DefaultForm(), NoErrors;
    }

    method ClickOpen()
      requires Valid()
      modifies this
      ensures Valid()
      ensures open && form == old(form) && errors == old(errors)
    {
      open := true;
    }

    method Close()
      modifies this
      ensures Valid()
      ensures !open && form == DefaultForm() && errors == NoErrors
    {
      open := false;
      form := DefaultForm();
      errors := NoErrors;
    }

    /** Sets field `f` alone and clears that field's error alone. */
    method InputChange(f: Field, value: string)
      requires Valid()
      requires f == PercentageField ==> PercentageText(value)
      modifies this
      ensures Valid()
      ensures form == SetField(old(form), f, value)
      ensures errors == ClearError(old(errors), f)
      ensures open == old(open)
    {
      form := SetField(form, f, value);
      if ErrorOf(errors, f) != "" {
        errors := ClearError(errors, f);
      }
    }

    /** Replaces the errors wholesale by the freshly computed ones. */
    method ValidateForm() returns (ok: bool)
      requires Valid()
      modifies this`errors
      ensures errors == Validate(form)
      ensures ok <==> Acceptable(form)
    {
      var newErrors := CollectErrors(form);
      errors := newErrors;
      ok := newErrors == NoErrors;
    }

    /** An acceptable form is handed to the log (`logged`) and the dialog is closed and
        reset, exactly as `Close` does; otherwise only the errors change. */
    method Submit() returns (logged: Option<FormData>)
      requires Valid()
      modifies this
      ensures Valid()
      ensures Acceptable(old(form)) ==>
                logged == Some(old(form)) && !open && form == DefaultForm() && errors == NoErrors
      ensures !Acceptable(old(form)) ==>
                logged == None && open == old(open) && form == old(form) && errors == Validate(form)
    {
      var ok := ValidateForm();
      if !ok {
        return None;
      }
      logged := Some(form);
      Close();
    }
  }
}
