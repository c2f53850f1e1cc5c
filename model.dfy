/** The user collection kept in the remote JSON document, and the lookups every screen shares. */
module Model {

  datatype Option<+T> = None | Some(value: T)

  /** One user record. A field the stored JSON object lacks is None; a registered user has no scores yet. */
  datatype User = User(
    name: Option<string>,
    email: Option<string>,
    mobile: Option<string>,
    password: Option<string>,
    scores: Option<map<string, int>>)

  /** The record with no fields at all, `{}`. */
  const EmptyUser := User(None, None, None, None, None)

  /** The fetched document's `record || []`: a missing record reads as an empty collection. */
  function UsersOf(record: Option<seq<User>>): seq<User>
  {
    if record.Some? then record.value else []
  }

  /** JavaScript truthiness of an optional string field: present and not "". */
  predicate Truthy(f: Option<string>)
  {
    f.Some? && f.value != ""
  }

  /** `u.email === email` for a string `email`: an absent email matches nothing. */
  predicate HasEmail(u: User, email: string)
  {
    u.email == Some(email)
  }

  /** A user's score in a category, `u.scores?.[category] || 0`: absent scores or an absent key count as 0. */
  function Score(u: User, category: string): int
  {
    if u.scores.Some? && category in u.scores.value then u.scores.value[category] else 0
  }

  /** `users.findIndex(u => u.email === email)`, with -1 as None. */
  function FindByEmail(users: seq<User>, email: string): (r: Option<nat>)
    ensures r.Some? ==> r.value < |users| && HasEmail(users[r.value], email)
    ensures r.Some? ==> forall j :: 0 <= j < r.value ==> !HasEmail(users[j], email)
    ensures r.None? <==> forall j :: 0 <= j < |users| ==> !HasEmail(users[j], email)
  {
    if users == [] then None
    else if HasEmail(users[0], email) then Some(0)
    else
      var rest := FindByEmail(users[1..], email);
      if rest.Some? then Some(rest.value + 1) else None
  }

  /** No two records carry the same email (records without an email do not clash). */
  predicate UniqueEmails(users: seq<User>)
  {
    forall i, j :: 0 <= i < j < |users| && users[i].email.Some? ==> users[i].email != users[j].email
  }

  /** Under unique emails, the first match is the only match. */
  lemma FindUnique(users: seq<User>, email: string, i: nat)
    requires UniqueEmails(users)
    requires i < |users| && HasEmail(users[i], email)
    ensures FindByEmail(users, email) == Some(i)
  {
  }
}
