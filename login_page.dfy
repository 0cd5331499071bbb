/**
 * The login form of src/pages/LoginPage.tsx: `validateForm`, the two
 * `onChangeText` handlers and the validation guard of `handleLogin`.
 */
module LoginPage {
  import opened Wrappers
  import opened Alerts
  import opened FormState

  const UsernameRequired := "Username is required"
  const PasswordRequired := "Password is required"
  const LoginSucceeded := Alert("Đăng nhập thành công", "Thông báo")

  /**
   * The errors `validateForm` builds: a required-field message for each empty
   * field and nothing else, so the record is empty exactly when both fields
   * are filled in.
   */
  function LoginErrors(form: Credentials): (r: FieldErrors)
    ensures r.username.Some? <==> form.username == ""
    ensures r.password.Some? <==> form.password == ""
    ensures r.username.Some? ==> r.username.value == UsernameRequired
    ensures r.password.Some? ==> r.password.value == PasswordRequired
    ensures r == NoErrors <==> form.username != "" && form.password != ""
  {
    FieldErrors(if form.username == "" then Some(UsernameRequired) else None,
                if form.password == "" then Some(PasswordRequired) else None)
  }

  class Page {
    var formData: Credentials
    var errors: FieldErrors
    var loading: bool

    constructor ()
      ensures formData == Credentials("", "") && errors == NoErrors && !loading
    {
      formData := Credentials("", "");
      errors := NoErrors;
      loading := false;
    }

    /** `error={!!errors.username}` and the message below the field. */
    function ShowsError(field: Field): bool
      reads this
    {
      Truthy(errors.Get(field))
    }

    /**
     * `validateForm`: replaces the errors wholesale by those of the current
     * form and reports whether there are none.
     */
    method ValidateForm() returns (ok: bool)
      modifies this
      ensures errors == LoginErrors(formData)
      ensures ok <==> formData.username != "" && formData.password != ""
      ensures ok <==> errors == NoErrors
      ensures formData == old(formData) && loading == old(loading)
    {
      errors := LoginErrors(formData);
      ok := errors == NoErrors;
    }

    /**
     * `handleLogin`: an invalid form stops before `loginUser` is called and
     * leaves `loading` alone; otherwise the request is made (`outcome` is how
     * it ends), the matching alert is raised, and `loading` is false at the end.
     */
    method HandleLogin(outcome: RemoteOutcome) returns (called: bool, alert: Option<Alert>)
      modifies this
      ensures called <==> formData.username != "" && formData.password != ""
      ensures errors == LoginErrors(formData) && formData == old(formData)
      ensures !called ==> alert.None? && loading == old(loading)
      ensures called ==> !loading
      ensures called && outcome.Resolved? ==> alert == Some(LoginSucceeded)
      ensures called && !outcome.Resolved? ==> alert == Some(Alert(FailureMessage(outcome), "Login Failed"))
    {
      var ok := ValidateForm();
      if !ok {
        return false, None;
      }
      loading := true;
      if outcome.Resolved? {
        alert := Some(LoginSucceeded);
      } else {
        alert := Some(Alert(FailureMessage(outcome), "Login Failed"));
      }
      loading := false;
      called := true;
    }

    /** The username field's `onChangeText`: sets only the username and clears only its error. */
    method OnChangeUsername(text: string)
      modifies this
      ensures (formData, errors) == EditField(old(formData), old(errors), Username, text)
      ensures formData == old(formData).(username := text)
      ensures errors.password == old(errors.password)
      ensures !ShowsError(Username)
      ensures !Truthy(old(errors.username)) ==> errors == old(errors)
      ensures loading == old(loading)
    {
      formData := formData.(username := text);
      if Truthy(errors.username) {
        errors := errors.(username := None);
      }
    }

    /** The password field's `onChangeText`: sets only the password and clears only its error. */
    method OnChangePassword(text: string)
      modifies this
      ensures (formData, errors) == EditField(old(formData), old(errors), Password, text)
      ensures formData == old(formData).(password := text)
      ensures errors.username == old(errors.username)
      ensures !ShowsError(Password)
      ensures !Truthy(old(errors.password)) ==> errors == old(errors)
      ensures loading == old(loading)
    {
      formData := formData.(password := text);
      if Truthy(errors.password) {
        errors := errors.(password := None);
      }
    }
  }
}
