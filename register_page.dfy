/**
 * app/register/page.js: the registration form refuses an empty email or
 * password before it calls `registerUser`.
 */
module RegisterPage {
  import opened Auth

  datatype Outcome = MissingField | AlreadyRegistered | Registered

  /** No record has an empty email or password. */
  predicate NoEmptyFields(users: seq<User>) {
    forall u :: u in users ==> u.email != "" && u.password != ""
  }

  /** The form's submit handler (app/register/page.js:11-18). */
  method HandleRegister(store: CredentialStore, email: string, password: string) returns (outcome: Outcome)
    modifies store
    ensures outcome == MissingField <==> email == "" || password == ""
    ensures outcome == AlreadyRegistered <==> email != "" && password != "" && HasEmail(old(store.users), email)
    ensures store.users == if outcome == Registered then old(store.users) + [User(email, password)] else old(store.users)
    ensures NoEmptyFields(old(store.users)) ==> NoEmptyFields(store.users)
    ensures store.authToken == old(store.authToken)
  {
    if email == "" || password == "" {
      return MissingField;
    }
    var ok := store.RegisterUser(email, password);
    outcome := if ok then Registered else AlreadyRegistered;
  }
}
