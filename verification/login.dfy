/** The login page's submit handler: no credential is checked, and the
    display name is the part of the e-mail address before the first `@`. */
module Login {
  import opened Text
  import opened Session

  /** `email.split('@')[0]`. */
  function DisplayName(email: string): (name: string)
    // a prefix of the address, free of '@', ending where the first '@' stands
    ensures name <= email
    ensures '@' !in name
    ensures |name| < |email| ==> email[|name|] == '@'
  {
    Split(email, '@')[0]
  }

  /** `handleSubmit`: whatever was entered reaches `login`. */
  function HandleSubmit(email: string, password: string, rememberMe: bool): (call: LoginCall)
    ensures call.email == email && call.userData.email == email
    ensures call.userData.name == DisplayName(email)
  {
    LoginCall(email, UserInfo(email, DisplayName(email)))
  }

  /** The password and the remember-me box play no part in the outcome. */
  lemma NoCredentialCheck(email: string, p1: string, p2: string, m1: bool, m2: bool)
    ensures HandleSubmit(email, p1, m1) == HandleSubmit(email, p2, m2)
  {
  }

  /** The derived name is the address when it has no '@', empty when the
      address starts with '@', and otherwise the address is the name, an
      '@' and the rest rejoined. */
  lemma {:induction false} DisplayNameCases(email: string)
    ensures '@' !in email ==> DisplayName(email) == email
    ensures |email| > 0 && email[0] == '@' ==> DisplayName(email) == ""
    ensures '@' in email ==>
              var pieces := Split(email, '@');
              |pieces| > 1 && email == pieces[0] + ['@'] + Join(pieces[1..], '@')
  {
    var name := DisplayName(email);
    assert |name| < |email| ==> email[|name|] in email;
    SplitJoin(email, '@');
  }
}
