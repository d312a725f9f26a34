/** The user document (`models.User` in backend/models/user.go). */
module Models {
  import opened Wrappers

  /**
   * A stored user. Go's pointer fields become `Option` where a stored document
   * can really lack them (`Fullname`, `Token`, `Refresh_token`); `Username` and
   * `Password` are always set on a stored document, because Signup dereferences
   * both before inserting. `password` holds the bcrypt hash. Times are Unix
   * seconds. The ObjectID `ID` is represented by its hex form `userId`.
   */
  datatype User = User(
    userId: string,
    username: string,
    fullname: Option<string>,
    password: string,
    token: Option<string>,
    refreshToken: Option<string>,
    createdAt: nat,
    updatedAt: nat)

  /** A present field whose length lies in [min, max]. */
  predicate Within(field: Option<string>, min: nat, max: nat) {
    field.Some? && min <= |field.value| <= max
  }

  /**
   * The rules the `validate` tags declare for a signup body: username and
   * fullname required with 2 to 100 characters, password required with at
   * least 6. The tags are written without their closing quote, so the
   * validator reads no rule from them; see `Controllers.SignupIgnoresDeclaredRules`.
   */
  predicate DeclaredRules(username: Option<string>, fullname: Option<string>, password: Option<string>) {
    && Within(username, 2, 100)
    && Within(fullname, 2, 100)
    && password.Some? && |password.value| >= 6
  }
}
