/** The admin login form (`components/Login.tsx`): it only checks that both
    fields are non-empty and hands them, untouched, to the parent's `onLogin`. */
module Login {
  import opened Wrappers
  import Strings

  const RequiredError: string := "Both System ID and Password are required"

  /** The form after a submit: the error line it shows, and the
      `(id, password)` pair passed to `onLogin` when it is called. */
  datatype SubmitOutcome = SubmitOutcome(error: string, onLogin: Option<(string, string)>)

  /** `handleSubmit`, given the current field values and error line. */
  function HandleSubmit(id: string, password: string, error: string): (r: SubmitOutcome)
    ensures r.onLogin.Some? <==> id != [] && password != []
    ensures r.onLogin.Some? ==> r.onLogin.value == (id, password) && r.error == error
    ensures r.onLogin.None? ==> r.error == RequiredError
  {
    if id == [] || password == [] then SubmitOutcome(RequiredError, None)
    else SubmitOutcome(error, Some((id, password)))
  }

  /** Only emptiness is checked: fields that are blank after trimming still
      pass the form and reach `onLogin` exactly as typed. */
  lemma BlankFieldsPass(id: string, password: string, error: string)
    requires id != [] && password != []
    requires Strings.AllWhitespace(id) && Strings.AllWhitespace(password)
    ensures Strings.Trim(id) == [] && Strings.Trim(password) == []
    ensures HandleSubmit(id, password, error) == SubmitOutcome(error, Some((id, password)))
  {
    Strings.TrimEmptyIffBlank(id);
    Strings.TrimEmptyIffBlank(password);
  }
}
