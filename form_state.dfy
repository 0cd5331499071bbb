/**
 * The state shared by the login and registration forms: the two text fields,
 * the errors record `{ username?, password? }` and the outcome of the awaited
 * request behind the submit button.
 */
module FormState {
  import opened Wrappers

  /** `formData` */
  datatype Credentials = Credentials(username: string, password: string) {

    /** `{ ...formData, [field]: value }` */
    function With(field: Field, value: string): (r: Credentials)
      ensures r.Get(field) == value
      ensures forall other :: other != field ==> r.Get(other) == Get(other)
    {
      match field
      case Username => this.(username := value)
      case Password => this.(password := value)
    }

    function Get(field: Field): string {
      match field
      case Username => username
      case Password => password
    }
  }

  datatype Field = Username | Password

  /** `errors`; an absent key and a key set to undefined are both None. */
  datatype FieldErrors = FieldErrors(username: Option<string>, password: Option<string>) {

    function Get(field: Field): Option<string> {
      match field
      case Username => username
      case Password => password
    }

    /** `{ ...errors, [field]: undefined }` */
    function Clear(field: Field): (r: FieldErrors)
      ensures r.Get(field).None?
      ensures forall other :: other != field ==> r.Get(other) == Get(other)
    {
      match field
      case Username => this.(username := None)
      case Password => this.(password := None)
    }
  }

  const NoErrors := FieldErrors(None, None)

  /** A JavaScript string value used as a condition: present and not "". */
  predicate Truthy(message: Option<string>) {
    message.Some? && message.value != ""
  }

  /** How the awaited request ends: it resolves, or it throws an `Error` with a message, or throws something else. */
  datatype RemoteOutcome = Resolved | ThrewError(message: string) | ThrewOther

  /** `error instanceof Error ? error.message : 'An error occurred'` */
  function FailureMessage(outcome: RemoteOutcome): string
    requires !outcome.Resolved?
  {
    if outcome.ThrewError? then outcome.message else "An error occurred"
  }

  /**
   * Editing a field as both forms do: the value of that field becomes the
   * text, and its error is cleared when one is shown; the other field's value
   * and error stay as they were.
   */
  function EditField(form: Credentials, errors: FieldErrors, field: Field, value: string): (r: (Credentials, FieldErrors))
    ensures r.0.Get(field) == value && r.1.Get(field).None? == (Truthy(errors.Get(field)) || errors.Get(field).None?)
    ensures forall other :: other != field ==> r.0.Get(other) == form.Get(other) && r.1.Get(other) == errors.Get(other)
    ensures !Truthy(errors.Get(field)) ==> r.1 == errors
  {
    (form.With(field, value), if Truthy(errors.Get(field)) then errors.Clear(field) else errors)
  }
}
