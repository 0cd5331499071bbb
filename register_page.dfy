/**
 * The registration form of src/pages/RegisterPage.tsx: `validateForm`,
 * `updateField` and the validation guard of `handleRegister`.
 */
module RegisterPage {
  import opened Wrappers
  import opened Alerts
  import opened FormState
  import Validators

  const UsernameRequired := "Username is required"
  const RegisterSucceeded := Alert("Registration successful! Please login.", "Success")

  /**
   * The errors `validateForm` builds: the required-field message for an
   * empty username, and for the password exactly the message validatePassword
   * gives (none when it accepts); so the record is empty exactly when the
   * username is filled in and the password passes.
   */
  function RegisterErrors(form: Credentials): (r: FieldErrors)
    ensures r.username == (if form.username == "" then Some(UsernameRequired) else None)
    ensures r.password == Validators.ValidatePassword(form.password).message
    ensures r.password.None? <==> Validators.ValidatePassword(form.password).isValid
    ensures r == NoErrors <==> form.username != "" && Validators.ValidatePassword(form.password).isValid
  {
    var passwordValidation := Validators.ValidatePassword(form.password);
    FieldErrors(if form.username == "" then Some(UsernameRequired) else None,
                if !passwordValidation.isValid then passwordValidation.message else None)
  }

  /** A filled-in username is not enough: a short password is reported even then. */
  lemma ShortPasswordReported(form: Credentials)
    requires form.username != "" && |form.password| < 8
    ensures RegisterErrors(form) == FieldErrors(None, Some(Validators.PasswordTooShort))
  {
  }

  class Page {
    var formData: Credentials
    var errors: FieldErrors
    var loading: bool

    constructor ()
      ensures formData == Credentials("", "") && errors == NoErrors && !loading
    {
      formData := Credentials("", "");
      errors := NoErrors;
      loading := false;
    }

    /**
     * `validateForm`: discards the old errors for those of the current form
     * and reports whether there are none.
     */
    method ValidateForm() returns (ok: bool)
      modifies this
      ensures errors == RegisterErrors(formData)
      ensures ok <==> formData.username != "" && Validators.ValidatePassword(formData.password).isValid
      ensures formData == old(formData) && loading == old(loading)
    {
      errors := RegisterErrors(formData);
      ok := errors == NoErrors;
    }

    /**
     * `handleRegister`: an invalid form returns before `registerUser` is
     * called and leaves `loading` alone; otherwise the request is made
     * (`outcome` is how it ends), the matching alert is raised, and `loading`
     * is false at the end.
     */
    method HandleRegister(outcome: RemoteOutcome) returns (called: bool, alert: Option<Alert>)
      modifies this
      ensures called <==> formData.username != "" && Validators.ValidatePassword(formData.password).isValid
      ensures errors == RegisterErrors(formData) && formData == old(formData)
      ensures !called ==> alert.None? && loading == old(loading)
      ensures called ==> !loading
      ensures called && outcome.Resolved? ==> alert == Some(RegisterSucceeded)
      ensures called && !outcome.Resolved? ==> alert == Some(Alert(FailureMessage(outcome), "Registration Failed"))
    {
      var ok := ValidateForm();
      if !ok {
        return false, None;
      }
      loading := true;
      if outcome.Resolved? {
        alert := Some(RegisterSucceeded);
      } else {
        alert := Some(Alert(FailureMessage(outcome), "Registration Failed"));
      }
      loading := false;
      called := true;
    }

    /**
     * `updateField(field)(value)`: sets only that field, clears its error when
     * one is shown, and leaves the other field's value and error unchanged.
     */
    method UpdateField(field: Field, value: string)
      modifies this
      ensures (formData, errors) == EditField(old(formData), old(errors), field, value)
      ensures formData.Get(field) == value
      ensures forall other :: other != field ==> formData.Get(other) == old(formData).Get(other)
      ensures forall other :: other != field ==> errors.Get(other) == old(errors).Get(other)
      ensures Truthy(old(errors).Get(field)) ==> errors.Get(field).None?
      ensures !Truthy(old(errors).Get(field)) ==> errors == old(errors)
      ensures loading == old(loading)
    {
      formData := formData.With(field, value);
      if Truthy(errors.Get(field)) {
        errors := errors.Clear(field);
      }
    }
  }
}
