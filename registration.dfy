/** The "Register" tab of `login_page`: three checks on the form, each stopping at its
    own error message, and only then `create_user`. */
module Registration {
  import opened Tables
  import opened TodoDatabase

  /** The result of the checks: the first failing one, or none. */
  datatype FormCheck = FormOk | MissingField | PasswordMismatch | InvalidEmail

  /** The checks in the order the tab runs them. */
  function CheckRegistration(username: string, email: string, password: string, confirm: string): FormCheck
  {
    if username == "" || email == "" || password == "" then MissingField
    else if password != confirm then PasswordMismatch
    else if '@' !in email || '.' !in email then InvalidEmail
    else FormOk
  }

  /** The form passes exactly when every field is filled in, the passwords agree and the
      email holds an '@' and a '.'; otherwise the first failing check names the error. */
  lemma CheckRegistrationSpec(username: string, email: string, password: string, confirm: string)
    ensures var c := CheckRegistration(username, email, password, confirm);
      (c == FormOk <==>
        username != "" && email != "" && password != "" && password == confirm && '@' in email && '.' in email) &&
      (c == MissingField <==> username == "" || email == "" || password == "") &&
      (c == PasswordMismatch <==> username != "" && email != "" && password != "" && password != confirm) &&
      (c == InvalidEmail <==> (username != "" && email != "" && password != "" && password == confirm &&
        ('@' !in email || '.' !in email)))
  {
  }

  /** What the tab shows: the failed check, "Registration successful!", or
      "Username or email already exists". */
  datatype Outcome = Rejected(reason: FormCheck) | Registered | Taken

  /** Clicking "Register". */
  method Register(db: Database, username: string, email: string, password: string, confirm: string, now: int)
    returns (outcome: Outcome)
    requires db.Valid()
    modifies db
    ensures db.Valid()
    ensures CheckRegistration(username, email, password, confirm) != FormOk ==>
      outcome == Rejected(CheckRegistration(username, email, password, confirm)) && unchanged(db)
    ensures CheckRegistration(username, email, password, confirm) == FormOk ==>
      !outcome.Rejected? && (outcome == Registered <==> !old(db.Clashes(username, email)))
    ensures outcome == Registered ==>
      db.users == old(db.users) + [User(old(db.nextUserId), username, email, db.hash(password), now)] &&
      db.nextUserId == old(db.nextUserId) + 1
    ensures outcome == Taken ==> db.users == old(db.users) && db.nextUserId == old(db.nextUserId)
    ensures db.tasks == old(db.tasks) && db.tags == old(db.tags) && db.taskTags == old(db.taskTags) &&
      db.resetTokens == old(db.resetTokens)
    ensures db.nextTokenId == old(db.nextTokenId) && db.nextTaskId == old(db.nextTaskId) &&
      db.nextTagId == old(db.nextTagId)
  {
    var check := CheckRegistration(username, email, password, confirm);
    if check != FormOk {
      return Rejected(check);
    }
    var ok := db.CreateUser(username, email, password, now);
    outcome := if ok then Registered else Taken;
  }
}
