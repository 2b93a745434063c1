/** The user record the credential repository hands back (the `users` table). */
module Users {
  import opened Wrappers

  /** One row of the `users` table: the password is only ever held hashed. */
  datatype User = User(
    id: int,
    email: string,
    hashedPassword: string,
    sessionId: Option<string>,
    resetToken: Option<string>)
}
