/** The update-role dialog: it opens on the current selection, prefills its form from
    the single selected record, validates like the add dialog and hands the edited
    record to the update callback. */
module UpdateButton {
  import opened RoleForm
  import Strings

  /** A role record as the dialog receives it and as it hands it back. */
  datatype RoleRecord = RoleRecord(id: int, role: string, name: string, percentage: int, lead: string)

  const BlankForm := FormData("", "", "", "")

  /** `formData.id` is truthy: set, and not the number 0. */
  predicate IdSet(id: Option<int>)
  {
    id.Some? && id.value != 0
  }

  /** The selection branch that shows the form: neither none nor several selected. */
  predicate SingleSelection(selectedCount: int)
  {
    selectedCount != 0 && !(selectedCount > 1)
  }

  /** The form filled from a record: the text fields copied, the percentage as its
      decimal text, which reads back as the record's percentage. */
  function Prefill(rec: RoleRecord): (f: FormData)
    ensures f.role == rec.role && f.name == rec.name && f.lead == rec.lead
    ensures PercentageText(f.percentage) && f.percentage != ""
    ensures Strings.NumberOf(f.percentage) == rec.percentage
    ensures f.percentage == Strings.IntText(rec.percentage)
  {
    Strings.IntTextRoundTrip(rec.percentage);
    FormData(rec.role, rec.name, Strings.IntText(rec.percentage), rec.lead)
  }

  /** The record handed to the update callback: the form's fields as typed (the name is
      not trimmed) and the percentage read as a number. */
  function Payload(id: int, form: FormData): (r: RoleRecord)
    requires Strings.IsIntText(form.percentage)
    ensures r.id == id && r.role == form.role && r.name == form.name && r.lead == form.lead
    ensures r.percentage == Strings.NumberOf(form.percentage)
    ensures Acceptable(form) ==> 0 <= r.percentage <= 100
  {
    RoleRecord(id, form.role, form.name, Strings.NumberOf(form.percentage), form.lead)
  }

  /** A record with a non-blank name and a percentage in [0, 100], prefilled and then
      submitted without edits, passes validation and gives back that very record. */
  lemma PrefillRoundTrip(rec: RoleRecord)
    requires !Strings.AllWhitespace(rec.name) && 0 <= rec.percentage <= 100
    ensures Acceptable(Prefill(rec)) && Validate(Prefill(rec)) == NoErrors
    ensures Payload(rec.id, Prefill(rec)) == rec
  {
  }

  /** The dialog's title. The three branches are told apart by it: "No Selection"
      exactly for a count of 0, "Multiple Selection" exactly for more than one, and
      otherwise the name of the first selected record ("undefined" when there is none). */
  function Title(selectedCount: int, selectedRoles: seq<RoleRecord>): (t: string)
    ensures t == "No Selection" <==> selectedCount == 0
    ensures t == "Multiple Selection" <==> selectedCount > 1
    ensures SingleSelection(selectedCount) ==>
              t == "Update Role - " + (if selectedRoles != [] then selectedRoles[0].name else "undefined")
  {
    if selectedCount == 0 then "No Selection"
    else if selectedCount > 1 then "Multiple Selection"
    else
      var name := if selectedRoles != [] then selectedRoles[0].name else "undefined";
      var t := "Update Role - " + name;
      assert t[0] == 'U';
      t
  }

  class UpdateRoleDialog {
    var open: bool
    var id: Option<int>
    var form: FormData
    var errors: Errors

    ghost predicate Valid()
      reads this
    {
      PercentageText(form.percentage)
    }

    /** Closed, no id, every field empty, no errors. */
    constructor ()
      ensures Valid()
      ensures !open && id == None && form == BlankForm && errors == NoErrors
    {
      open, id, form, errors := false, None, BlankForm, NoErrors;
    }

    /** Opens the dialog; with a single selection and a first selected record, the form
        is prefilled from that record first. */
    method ClickOpen(selectedCount: int, selectedRoles: seq<RoleRecord>)
      requires Valid()
      modifies this
      ensures Valid()
      ensures open && errors == old(errors)
      ensures SingleSelection(selectedCount) && selectedRoles != [] ==>
                id == Some(selectedRoles[0].id) && form == Prefill(selectedRoles[0])
      ensures !(SingleSelection(selectedCount) && selectedRoles != []) ==>
                id == old(id) && form == old(form)
    {
      if selectedCount == 0 {
        open := true;
        return;
      }
      if selectedCount > 1 {
        open := true;
        return;
      }
      if selectedRoles != [] {
        var selectedRole := selectedRoles[0];
        id := Some(selectedRole.id);
        form := Prefill(selectedRole);
      }
      open := true;
    }

    method Close()
      modifies this
      ensures Valid()
      ensures !open && id == None && form == BlankForm && errors == NoErrors
    {
      open := false;
      id := None;
      form := BlankForm;
      errors := NoErrors;
    }

    /** Sets field `f` alone and clears that field's error alone. */
    method InputChange(f: Field, value: string)
      requires Valid()
      requires f == PercentageField ==> PercentageText(value)
      modifies this
      ensures Valid()
      ensures form == SetField(old(form), f, value)
      ensures errors == ClearError(old(errors), f)
      ensures open == old(open) && id == old(id)
    {
      form := SetField(form, f, value);
      if ErrorOf(errors, f) != "" {
        errors := ClearError(errors, f);
      }
    }

    /** Replaces the errors wholesale by the freshly computed ones. */
    method ValidateForm() returns (ok: bool)
      requires Valid()
      modifies this`errors
      ensures errors == Validate(form)
      ensures ok <==> Acceptable(form)
    {
      var newErrors := CollectErrors(form);
      errors := newErrors;
      ok := newErrors == NoErrors;
    }

    /** An invalid form calls nothing and stays as it is, with its errors shown. A valid
        one calls the update callback once (`update`), when there is a callback and the
        id is set, then resets the dialog as `Close` does. */
    method Submit(hasCallback: bool) returns (update: Option<RoleRecord>)
      requires Valid()
      modifies this
      ensures Valid()
      ensures !Acceptable(old(form)) ==>
                && update == None && open == old(open) && id == old(id) && form == old(form)
                && errors == Validate(form)
      ensures Acceptable(old(form)) ==>
                && update == (if hasCallback && IdSet(old(id)) then Some(Payload(old(id).value, old(form))) else None)
                && !open && id == None && form == BlankForm && errors == NoErrors
    {
      var ok := ValidateForm();
      if !ok {
        return None;
      }
      update := None;
      if hasCallback && IdSet(id) {
        update := Some(Payload(id.value, form));
      }
      Close();
    }
  }

  /** The round trip through the handlers: open on exactly one record, submit without
      editing, and the callback receives that record. */
  method OpenThenSubmit(rec: RoleRecord) returns (update: Option<RoleRecord>)
    requires rec.id != 0 && !Strings.AllWhitespace(rec.name) && 0 <= rec.percentage <= 100
    ensures update == Some(rec)
  {
    var dialog := new UpdateRoleDialog();
    dialog.ClickOpen(1, [rec]);
    PrefillRoundTrip(rec);
    update := dialog.Submit(true);
  }
}
