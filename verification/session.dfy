/** What the login and sign-up pages hand to the session's `login`. */
module Session {

  datatype UserInfo = UserInfo(email: string, name: string)

  /** One call `login(email, userData)`. */
  datatype LoginCall = LoginCall(email: string, userData: UserInfo)
}
