/** The sign-up page: the password checks made on submit and while typing,
    the submit button's enabling rule, and the call to `login` on success. */
module Signup {
  import opened Nullable
  import opened Session

  const MismatchError := "Passwords do not match"
  const TooShortError := "Password must be at least 8 characters"
  const MinPasswordLength := 8

  /** `validateForm`'s return value and the error it leaves on screen. */
  datatype Validation = Validation(valid: bool, error: string)

  function ValidateForm(password: string, confirm: string): (v: Validation)
    ensures v.valid <==> password == confirm && |password| >= MinPasswordLength
    // a mismatch is reported first, even when the password is also too short
    ensures password != confirm ==> v.error == MismatchError
    ensures password == confirm && |password| < MinPasswordLength ==> v.error == TooShortError
    // success clears the error; failure always shows one
    ensures v.valid <==> v.error == ""
  {
    if password != confirm then Validation(false, MismatchError)
    else if |password| < MinPasswordLength then Validation(false, TooShortError)
    else Validation(true, "")
  }

  /** The error after typing in the password field, the confirmation being
      `confirm`: only a non-empty, different confirmation is a mismatch. */
  function PasswordEdited(password: string, confirm: string): (error: string)
    ensures error == MismatchError <==> confirm != "" && password != confirm
    ensures error != MismatchError ==> error == ""
  {
    if confirm != "" && password != confirm then MismatchError else ""
  }

  /** The error after typing in the confirmation field. */
  function ConfirmEdited(password: string, confirm: string): (error: string)
    ensures error == MismatchError <==> password != "" && password != confirm
    ensures error != MismatchError ==> error == ""
  {
    if password != "" && confirm != password then MismatchError else ""
  }

  /** `isSubmitting || !agreedTerms || Boolean(passwordError)`. */
  predicate SubmitDisabled(submitting: bool, agreedTerms: bool, error: string) {
    submitting || !agreedTerms || error != ""
  }

  datatype Form = Form(fullName: string, email: string, password: string, confirm: string, agreedTerms: bool)

  /** The outcome of `handleSubmit`: the error left on screen and the call
      made to `login`, if any. */
  datatype Submitted = Submitted(error: string, call: Option<LoginCall>)

  function HandleSubmit(form: Form): (s: Submitted)
    // login is called exactly when the form validates
    ensures s.call.Some? <==> form.password == form.confirm && |form.password| >= MinPasswordLength
    ensures s.call.Some? ==> s.call.value == LoginCall(form.email, UserInfo(form.email, form.fullName))
    ensures s.call.Some? <==> s.error == ""
    // the error left on screen is the validator's, mismatch first
    ensures s.error == ValidateForm(form.password, form.confirm).error
    ensures form.password != form.confirm ==> s.error == MismatchError
    ensures form.password == form.confirm && |form.password| < MinPasswordLength ==> s.error == TooShortError
  {
    var v := ValidateForm(form.password, form.confirm);
    if !v.valid then Submitted(v.error, None)
    else Submitted("", Some(LoginCall(form.email, UserInfo(form.email, form.fullName))))
  }

  /** Matching fields typed in either order leave no error on screen, so with
      the terms accepted the button is enabled. */
  lemma MatchingEditsEnableSubmit(password: string)
    ensures !SubmitDisabled(false, true, PasswordEdited(password, password))
    ensures !SubmitDisabled(false, true, ConfirmEdited(password, password))
  {
  }

  /** The live checks never look at the length: a short password typed twice
      leaves the button enabled, and only submission rejects it. */
  lemma ShortPasswordCaughtOnlyOnSubmit()
    ensures ConfirmEdited("abc", "abc") == ""
    ensures !SubmitDisabled(false, true, ConfirmEdited("abc", "abc"))
    ensures HandleSubmit(Form("A", "a@b.c", "abc", "abc", true)) == Submitted(TooShortError, None)
  {
  }
}
