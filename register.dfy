/**
 * The registration form: the schema's field rules, the error map built from the failed
 * checks, the duplicate-email check against the fetched collection, and the append of the
 * new record.
 */
module Register {
  import opened Model
  import Login

  datatype Field = NameField | EmailField | MobileField | PasswordField

  /** One failed check, in the order the schema reports them. */
  datatype Issue = Issue(field: Field, message: string)

  /** The form's four text inputs; all start empty. */
  datatype Form = Form(name: string, email: string, mobile: string, password: string)

  const NameTooShort := "Name must be at least 3 characters"
  const BadEmail := "Invalid email address"
  const BadMobile := "Mobile number must be 10 digits"
  const PasswordTooShort := "Minimum 4 characters"
  const PasswordTooLong := "Maximum 6 characters"
  const PasswordTooWeak := "Must include a capital letter, number, and special symbol"
  const AlreadyExistsMessage := "\U{26A0}\U{FE0F} User already exists!"
  const SuccessMessage := "\U{2705} Registration successful!"
  const SaveFailedMessage := "\U{274C} Failed to save data."

  /** The shortest name and password the schema accepts, and the longest password. */
  const MinName: nat := 3
  const MinPassword: nat := 3
  const MaxPassword: nat := 6
  const MobileLength: nat := 10

  // ---------------------------------------------------------------- character classes

  predicate IsDigit(c: char) { '0' <= c <= '9' }

  predicate IsCapital(c: char) { 'A' <= c <= 'Z' }

  /** The pattern's special symbols `[!@#$%^&*]`. */
  predicate IsSymbol(c: char) { c in "!@#$%^&*" }

  /** The characters a regular expression's `.` does not match. */
  predicate IsLineTerminator(c: char)
  {
    c == '\n' || c == '\r' || c == '\U{2028}' || c == '\U{2029}'
  }

  /** The part of `s` before its first line terminator, the only part the lookaheads `(?=.*X)` can see. */
  function FirstLine(s: string): (r: string)
    ensures r <= s
    ensures forall i :: 0 <= i < |r| ==> !IsLineTerminator(r[i])
    ensures |r| < |s| ==> IsLineTerminator(s[|r|])
  {
    if s == [] || IsLineTerminator(s[0]) then [] else [s[0]] + FirstLine(s[1..])
  }

  /** `/^(?=.*[A-Z])(?=.*\d)(?=.*[!@#$%^&*])/`: a capital, a digit and a symbol, each before any line break. */
  predicate MeetsPattern(p: string)
  {
    var line := FirstLine(p);
    && (exists i :: 0 <= i < |line| && IsCapital(line[i]))
    && (exists i :: 0 <= i < |line| && IsDigit(line[i]))
    && (exists i :: 0 <= i < |line| && IsSymbol(line[i]))
  }

  /** `/^[0-9]{10}$/`. */
  predicate ValidMobile(m: string)
  {
    |m| == MobileLength && forall i :: 0 <= i < |m| ==> IsDigit(m[i])
  }

  // ---------------------------------------------------------------- the schema

  function NameIssues(name: string): seq<Issue>
  {
    if |name| < MinName then [Issue(NameField, NameTooShort)] else []
  }

  function EmailIssues(email: string, isEmail: string -> bool): seq<Issue>
  {
    if isEmail(email) then [] else [Issue(EmailField, BadEmail)]
  }

  function MobileIssues(mobile: string): seq<Issue>
  {
    if ValidMobile(mobile) then [] else [Issue(MobileField, BadMobile)]
  }

  /** The password's three checks run in order and each failure is reported. */
  function PasswordIssues(p: string): seq<Issue>
  {
    (if |p| < MinPassword then [Issue(PasswordField, PasswordTooShort)] else [])
    + (if |p| > MaxPassword then [Issue(PasswordField, PasswordTooLong)] else [])
    + (if MeetsPattern(p) then [] else [Issue(PasswordField, PasswordTooWeak)])
  }

  /** `registerSchema.safeParse(formData)`'s issues, field by field in schema order. */
  function Issues(form: Form, isEmail: string -> bool): seq<Issue>
  {
    NameIssues(form.name) + EmailIssues(form.email, isEmail)
    + MobileIssues(form.mobile) + PasswordIssues(form.password)
  }

  /** A password passes exactly when it has 3 to 6 characters and meets the pattern. */
  lemma PasswordRule(p: string)
    ensures PasswordIssues(p) == [] <==> MinPassword <= |p| <= MaxPassword && MeetsPattern(p)
  {
  }

  // ---------------------------------------------------------------- the error map

  /** The object `newErrors` after assigning each issue's message to its field in turn. */
  function ErrorsOf(issues: seq<Issue>): map<Field, string>
  {
    if issues == [] then map[]
    else
      var last := issues[|issues| - 1];
      ErrorsOf(issues[..|issues| - 1])[last.field := last.message]
  }

  /** `result.error.issues.forEach(err => newErrors[err.path[0]] = err.message)`. */
  method CollectErrors(issues: seq<Issue>) returns (errors: map<Field, string>)
    ensures errors == ErrorsOf(issues)
  {
    errors := map[];
    for i := 0 to |issues|
      invariant errors == ErrorsOf(issues[..i])
    {
      assert issues[..i + 1][..i] == issues[..i];
      errors := errors[issues[i].field := issues[i].message];
    }
    assert issues[..|issues|] == issues;
  }

  /** `issues[k]` is the last issue naming `f`. */
  predicate IsLastFor(issues: seq<Issue>, k: int, f: Field)
  {
    0 <= k < |issues| && issues[k].field == f && forall l :: k < l < |issues| ==> issues[l].field != f
  }

  /**
   * A field has an entry exactly when some issue names it, and the entry is the message of
   * the last issue naming it.
   */
  lemma {:induction false} ErrorsOfSpec(issues: seq<Issue>)
    ensures forall f :: f in ErrorsOf(issues) <==> exists k :: 0 <= k < |issues| && issues[k].field == f
    ensures forall f :: f in ErrorsOf(issues) ==>
      exists k :: IsLastFor(issues, k, f) && issues[k].message == ErrorsOf(issues)[f]
  {
    if issues != [] {
      var init := issues[..|issues| - 1];
      var last := issues[|issues| - 1];
      ErrorsOfSpec(init);
      assert ErrorsOf(issues) == ErrorsOf(init)[last.field := last.message];
      forall f | f in ErrorsOf(issues)
        ensures exists k :: IsLastFor(issues, k, f) && issues[k].message == ErrorsOf(issues)[f]
      {
        if f != last.field {
          assert f in ErrorsOf(init);
          var k :| IsLastFor(init, k, f) && init[k].message == ErrorsOf(init)[f];
          assert issues[k] == init[k];
          assert IsLastFor(issues, k, f);
        } else {
          assert IsLastFor(issues, |issues| - 1, f);
        }
      }
      forall f | exists k :: 0 <= k < |issues| && issues[k].field == f
        ensures f in ErrorsOf(issues)
      {
        var k :| 0 <= k < |issues| && issues[k].field == f;
        if k < |init| {
          assert init[k].field == f;
        }
      }
    }
  }

  /** Assigning the issues of `a` and then those of `b` leaves `b`'s entries on top of `a`'s. */
  lemma {:induction false} ErrorsOfAppend(a: seq<Issue>, b: seq<Issue>)
    ensures ErrorsOf(a + b) == ErrorsOf(a) + ErrorsOf(b)
  {
    if b == [] {
      assert a + b == a;
    } else {
      var init := b[..|b| - 1];
      var last := b[|b| - 1];
      assert (a + b)[..|a + b| - 1] == a + init;
      assert (a + b)[|a + b| - 1] == last;
      ErrorsOfAppend(a, init);
    }
  }

  /**
   * The password field's entry is the last failing check's message: the pattern's when the
   * pattern fails, otherwise the length check that fails, and no entry for a valid password.
   */
  lemma PasswordMessage(p: string)
    ensures var errors := ErrorsOf(PasswordIssues(p));
      && (PasswordField in errors <==> !(MinPassword <= |p| <= MaxPassword && MeetsPattern(p)))
      && (!MeetsPattern(p) ==> PasswordField in errors && errors[PasswordField] == PasswordTooWeak)
      && (MeetsPattern(p) && |p| > MaxPassword ==> PasswordField in errors && errors[PasswordField] == PasswordTooLong)
      && (MeetsPattern(p) && |p| < MinPassword ==> PasswordField in errors && errors[PasswordField] == PasswordTooShort)
      && errors.Keys <= {PasswordField}
  {
    var short := if |p| < MinPassword then [Issue(PasswordField, PasswordTooShort)] else [];
    var long := if |p| > MaxPassword then [Issue(PasswordField, PasswordTooLong)] else [];
    var weak := if MeetsPattern(p) then [] else [Issue(PasswordField, PasswordTooWeak)];
    ErrorsOfAppend(short + long, weak);
    ErrorsOfAppend(short, long);
    assert short + long == [] || |short + long| == 1;
    assert ErrorsOf([Issue(PasswordField, PasswordTooShort)]) == map[PasswordField := PasswordTooShort];
    assert ErrorsOf([Issue(PasswordField, PasswordTooLong)]) == map[PasswordField := PasswordTooLong];
    assert ErrorsOf([Issue(PasswordField, PasswordTooWeak)]) == map[PasswordField := PasswordTooWeak];
  }

  /** The form passes the schema exactly when every field meets its rule, and then there are no errors. */
  lemma FormRules(form: Form, isEmail: string -> bool)
    ensures Issues(form, isEmail) == [] <==>
      && |form.name| >= MinName
      && isEmail(form.email)
      && ValidMobile(form.mobile)
      && MinPassword <= |form.password| <= MaxPassword && MeetsPattern(form.password)
    ensures ErrorsOf(Issues(form, isEmail)) == map[] <==> Issues(form, isEmail) == []
  {
    var issues := Issues(form, isEmail);
    ErrorsOfSpec(issues);
    if issues != [] {
      assert issues[0].field in ErrorsOf(issues);
    }
  }

  lemma ErrorsOfOne(issue: Issue)
    ensures ErrorsOf([issue]) == map[issue.field := issue.message]
  {
    assert [issue][..0] == [];
  }

  /** The error map is the union of the four fields' maps. */
  lemma ErrorsSplit(form: Form, isEmail: string -> bool)
    ensures ErrorsOf(Issues(form, isEmail))
      == ErrorsOf(NameIssues(form.name)) + ErrorsOf(EmailIssues(form.email, isEmail))
         + ErrorsOf(MobileIssues(form.mobile)) + ErrorsOf(PasswordIssues(form.password))
  {
    var n := NameIssues(form.name);
    var e := EmailIssues(form.email, isEmail);
    var m := MobileIssues(form.mobile);
    var p := PasswordIssues(form.password);
    ErrorsOfAppend(n + e + m, p);
    ErrorsOfAppend(n + e, m);
    ErrorsOfAppend(n, e);
  }

  /** Each field's own issues produce at most that field's entry. */
  lemma FieldMaps(form: Form, isEmail: string -> bool)
    ensures ErrorsOf(NameIssues(form.name))
      == if |form.name| < MinName then map[NameField := NameTooShort] else map[]
    ensures ErrorsOf(EmailIssues(form.email, isEmail))
      == if isEmail(form.email) then map[] else map[EmailField := BadEmail]
    ensures ErrorsOf(MobileIssues(form.mobile))
      == if ValidMobile(form.mobile) then map[] else map[MobileField := BadMobile]
    ensures ErrorsOf(PasswordIssues(form.password)).Keys <= {PasswordField}
  {
    ErrorsOfOne(Issue(NameField, NameTooShort));
    ErrorsOfOne(Issue(EmailField, BadEmail));
    ErrorsOfOne(Issue(MobileField, BadMobile));
    PasswordMessage(form.password);
  }

  /** In the union of the four fields' maps, a field's entry can only come from its own map. */
  lemma OwnEntry(n: map<Field, string>, e: map<Field, string>, m: map<Field, string>, p: map<Field, string>, f: Field, own: map<Field, string>)
    requires n.Keys <= {NameField} && e.Keys <= {EmailField} && m.Keys <= {MobileField} && p.Keys <= {PasswordField}
    requires own == match f case NameField => n case EmailField => e case MobileField => m case PasswordField => p
    ensures f in n + e + m + p <==> f in own
    ensures f in own ==> (n + e + m + p)[f] == own[f]
  {
  }

  /** The error map holds one entry per failing field, with that field's message. */
  lemma ErrorMap(form: Form, isEmail: string -> bool)
    ensures var errors := ErrorsOf(Issues(form, isEmail));
      && (NameField in errors <==> |form.name| < MinName)
      && (NameField in errors ==> errors[NameField] == NameTooShort)
      && (EmailField in errors <==> !isEmail(form.email))
      && (EmailField in errors ==> errors[EmailField] == BadEmail)
      && (MobileField in errors <==> !ValidMobile(form.mobile))
      && (MobileField in errors ==> errors[MobileField] == BadMobile)
      && (PasswordField in errors <==> PasswordField in ErrorsOf(PasswordIssues(form.password)))
      && (PasswordField in errors ==> errors[PasswordField] == ErrorsOf(PasswordIssues(form.password))[PasswordField])
  {
    var n := ErrorsOf(NameIssues(form.name));
    var e := ErrorsOf(EmailIssues(form.email, isEmail));
    var m := ErrorsOf(MobileIssues(form.mobile));
    var p := ErrorsOf(PasswordIssues(form.password));
    ErrorsSplit(form, isEmail);
    FieldMaps(form, isEmail);
    OwnEntry(n, e, m, p, NameField, n);
    OwnEntry(n, e, m, p, EmailField, e);
    OwnEntry(n, e, m, p, MobileField, m);
    OwnEntry(n, e, m, p, PasswordField, p);
  }

  // ---------------------------------------------------------------- the submit

  /** The appended record `formData`: the four fields as typed and no scores. */
  function NewUser(form: Form): User
  {
    User(Some(form.name), Some(form.email), Some(form.mobile), Some(form.password), None)
  }

  datatype Outcome = Invalid(errors: map<Field, string>) | AlreadyExists | Registered | SaveFailed

  /** The outcome and the stored collection afterwards. */
  datatype Response = Response(outcome: Outcome, stored: seq<User>)

  /** The status line the form shows, none for a validation failure. */
  function Message(outcome: Outcome): Option<string>
  {
    match outcome
    case Invalid(_) => None
    case AlreadyExists => Some(AlreadyExistsMessage)
    case Registered => Some(SuccessMessage)
    case SaveFailed => Some(SaveFailedMessage)
  }

  /** A validation failure sets no status line; every other outcome sets its own. */
  lemma MessagesDistinct(a: Outcome, b: Outcome)
    ensures Message(a).None? <==> a.Invalid?
    ensures !a.Invalid? && !b.Invalid? ==> (Message(a) == Message(b) <==> a == b)
  {
  }

  /**
   * The submit handler over the fetched `record`; `saveOk` is the answer of the store to the
   * write of the grown collection.
   */
  function Submit(form: Form, record: Option<seq<User>>, isEmail: string -> bool, saveOk: bool): Response
  {
    var issues := Issues(form, isEmail);
    var users := UsersOf(record);
    if issues != [] then Response(Invalid(ErrorsOf(issues)), users)
    else if FindByEmail(users, form.email).Some? then Response(AlreadyExists, users)
    else if saveOk then Response(Registered, users + [NewUser(form)])
    else Response(SaveFailed, users)
  }

  /**
   * An invalid form is refused with its error map (whose entries `ErrorMap` gives field by
   * field), a known email is refused, and otherwise the new record is appended at the end; only
   * a successful save changes the collection.
   */
  lemma SubmitSpec(form: Form, record: Option<seq<User>>, isEmail: string -> bool, saveOk: bool)
    ensures var r := Submit(form, record, isEmail, saveOk);
      var users := UsersOf(record);
      && (r.outcome.Invalid? <==> Issues(form, isEmail) != [])
      && (r.outcome.Invalid? ==> r.outcome.errors != map[])
      && (r.outcome.Invalid? ==> r.outcome.errors == ErrorsOf(Issues(form, isEmail)))
      && (r.outcome.AlreadyExists? <==>
          Issues(form, isEmail) == [] && exists j :: 0 <= j < |users| && HasEmail(users[j], form.email))
      && (r.outcome.Registered? <==>
          Issues(form, isEmail) == [] && saveOk && forall j :: 0 <= j < |users| ==> !HasEmail(users[j], form.email))
      && (r.outcome.Registered? ==>
            |r.stored| == |users| + 1 && r.stored[..|users|] == users && r.stored[|users|] == NewUser(form))
      && (!r.outcome.Registered? ==> r.stored == users)
  {
    FormRules(form, isEmail);
    var users := UsersOf(record);
    assert (users + [NewUser(form)])[..|users|] == users;
  }

  /** Registration keeps emails unique. */
  lemma SubmitKeepsUnique(form: Form, record: Option<seq<User>>, isEmail: string -> bool, saveOk: bool)
    requires UniqueEmails(UsersOf(record))
    ensures UniqueEmails(Submit(form, record, isEmail, saveOk).stored)
  {
    var users := UsersOf(record);
    var r := Submit(form, record, isEmail, saveOk);
    if r.outcome.Registered? {
      var s := r.stored;
      forall a, b | 0 <= a < b < |s| && s[a].email.Some?
        ensures s[a].email != s[b].email
      {
        if b == |users| {
          assert !HasEmail(users[a], form.email);
        } else {
          assert s[a] == users[a] && s[b] == users[b];
        }
      }
    }
  }

  /** After a successful registration, logging in with the same email and password succeeds. */
  lemma RegisterThenLogin(form: Form, record: Option<seq<User>>, isEmail: string -> bool)
    requires Submit(form, record, isEmail, true).outcome.Registered?
    ensures Login.HandleSubmit(Some(Submit(form, record, isEmail, true).stored), form.email, form.password)
      == Login.LoggedIn(Login.Identity(form.email, form.name))
  {
    var users := UsersOf(record);
    var stored := Submit(form, record, isEmail, true).stored;
    FormRules(form, isEmail);
    Login.LoginSpec(Some(stored), form.email, form.password);
    forall k | 0 <= k < |users| ensures !Login.Matches(stored[k], form.email, form.password) {
      assert stored[k] == users[k];
    }
    assert Login.Matches(stored[|users|], form.email, form.password);
  }
}
