/**
 * The login form's submit: a search of the fetched collection for a record whose email and
 * password both equal the typed ones, and the identity the browser then stores.
 */
module Login {
  import opened Model

  /** The message shown when no record matches. */
  const InvalidCredentials := "\U{274C} Invalid Email or Password!"

  /** The name stored when the matching record has no truthy name. */
  const DefaultName := "Player"

  /** What the browser stores on success: `userEmail` is the typed email, `username` the display name. */
  datatype Identity = Identity(email: string, username: string)

  datatype LoginOutcome = LoggedIn(identity: Identity) | Rejected(message: string)

  /** `u.email === email && u.password === password`. */
  predicate Matches(u: User, email: string, password: string)
  {
    u.email == Some(email) && u.password == Some(password)
  }

  /** `users.find(...)` as the index of the first matching record. */
  function FindCredentials(users: seq<User>, email: string, password: string): (r: Option<nat>)
    ensures r.Some? ==> r.value < |users| && Matches(users[r.value], email, password)
    ensures r.Some? ==> forall j :: 0 <= j < r.value ==> !Matches(users[j], email, password)
    ensures r.None? <==> forall j :: 0 <= j < |users| ==> !Matches(users[j], email, password)
  {
    if users == [] then None
    else if Matches(users[0], email, password) then Some(0)
    else
      var rest := FindCredentials(users[1..], email, password);
      if rest.Some? then Some(rest.value + 1) else None
  }

  /** `userFound.name || "Player"`. */
  function DisplayName(u: User): (name: string)
    ensures name != ""
    ensures Truthy(u.name) ==> name == u.name.value
    ensures !Truthy(u.name) ==> name == DefaultName
  {
    if Truthy(u.name) then u.name.value else DefaultName
  }

  /** The submit handler over the fetched `record` (absent when the document has none). */
  function HandleSubmit(record: Option<seq<User>>, email: string, password: string): LoginOutcome
  {
    var users := UsersOf(record);
    var found := FindCredentials(users, email, password);
    if found.Some? then LoggedIn(Identity(email, DisplayName(users[found.value])))
    else Rejected(InvalidCredentials)
  }

  /**
   * Login succeeds exactly when some record has both the typed email and the typed password;
   * it then stores the typed email and the first such record's display name, and otherwise
   * shows the invalid-credentials message.
   */
  lemma LoginSpec(record: Option<seq<User>>, email: string, password: string)
    ensures var users := UsersOf(record);
      (HandleSubmit(record, email, password).LoggedIn? <==>
         exists j :: 0 <= j < |users| && Matches(users[j], email, password))
    ensures var users := UsersOf(record);
      forall j ::
        (0 <= j < |users| && Matches(users[j], email, password)
         && (forall k :: 0 <= k < j ==> !Matches(users[k], email, password)))
        ==> HandleSubmit(record, email, password) == LoggedIn(Identity(email, DisplayName(users[j])))
    ensures HandleSubmit(record, email, password).Rejected?
      ==> HandleSubmit(record, email, password).message == InvalidCredentials
  {
    var users := UsersOf(record);
    var found := FindCredentials(users, email, password);
    forall j | 0 <= j < |users| && Matches(users[j], email, password)
        && (forall k :: 0 <= k < j ==> !Matches(users[k], email, password))
      ensures found == Some(j)
    {
      assert found.Some?;
      assert !(found.value < j);
      assert !(j < found.value);
    }
  }

  /** Without a `record` in the document nobody can log in. */
  lemma MissingRecordRejects(email: string, password: string)
    ensures HandleSubmit(None, email, password) == Rejected(InvalidCredentials)
  {
  }
}
