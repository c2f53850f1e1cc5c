/**
 * The results screen's best-score merge: find the logged-in user by email and overwrite the
 * stored score of the quiz's category only when the new score beats it. The fetched collection
 * is the array the handler works on; it is written back to the store only on a new best.
 */
module Results {
  import opened Model
  import opened Quiz
  import Profile

  datatype Status = NoResult | MissingInfo | UserNotFound | NewHighScore | NotBeaten

  /** The line the screen shows for each status. */
  function StatusMessage(s: Status): string
  {
    match s
    case NoResult => "\U{26A0}\U{FE0F} No quiz result found."
    case MissingInfo => "\U{26A0}\U{FE0F} Missing user or category info."
    case UserNotFound => "\U{26A0}\U{FE0F} User not found in database."
    case NewHighScore => "\U{2705} New high score saved successfully!"
    case NotBeaten => "\U{2139}\U{FE0F} You did not beat your previous best score."
  }

  /** `if (!user.scores) user.scores = {}`. */
  function Normalize(u: User): (r: User)
    ensures r.scores.Some?
    ensures u.scores.None? ==> r.scores == Some(map[])
    ensures u.scores.Some? ==> r == u
    ensures forall c :: Score(r, c) == Score(u, c)
    ensures r == u.(scores := r.scores)
  {
    if u.scores.None? then u.(scores := Some(map[])) else u
  }

  /** The user with `category`'s stored score set to `score`. */
  function WithScore(u: User, category: string, score: int): User
    requires u.scores.Some?
  {
    u.(scores := Some(u.scores.value[category := score]))
  }

  /** What the handler reports for the fetched users, the stored `userEmail` and the stored quiz result. */
  function Outcome(users: seq<User>, email: Option<string>, result: Option<QuizResult>): Status
  {
    if result.None? then NoResult
    else if !Truthy(email) || result.value.category == "" then MissingInfo
    else
      var index := FindByEmail(users, email.value);
      if index.None? then UserNotFound
      else if result.value.score > Score(users[index.value], result.value.category) then NewHighScore
      else NotBeaten
  }

  /** The handler's array afterwards: the found user normalised and, on a new best, the category updated. */
  function Scratch(users: seq<User>, email: Option<string>, result: Option<QuizResult>): (r: seq<User>)
    ensures |r| == |users|
  {
    var status := Outcome(users, email, result);
    if status.NewHighScore? || status.NotBeaten? then
      var i := FindByEmail(users, email.value).value;
      var user := Normalize(users[i]);
      if status.NewHighScore? then users[i := WithScore(user, result.value.category, result.value.score)]
      else users[i := user]
    else users
  }

  /** The collection in the store afterwards: the handler's array if it was written back, else as before. */
  function StoredAfter(users: seq<User>, email: Option<string>, result: Option<QuizResult>): seq<User>
  {
    if Outcome(users, email, result).NewHighScore? then Scratch(users, email, result) else users
  }

  /** `updateUserScore` over the fetched array `users`. */
  method UpdateUserScore(users: array<User>, email: Option<string>, result: Option<QuizResult>) returns (status: Status)
    modifies users
    ensures status == Outcome(old(users[..]), email, result)
    ensures users[..] == Scratch(old(users[..]), email, result)
  {
    if result.None? {
      return NoResult;
    }
    var category := result.value.category;
    var score := result.value.score;
    if !Truthy(email) || category == "" {
      return MissingInfo;
    }
    var index := FindByEmail(users[..], email.value);
    if index.None? {
      return UserNotFound;
    }
    var i := index.value;
    var user := users[i];
    if user.scores.None? {
      user := user.(scores := Some(map[]));
      users[i] := user;
    }
    var prevBest := Score(user, category);
    if score > prevBest {
      user := user.(scores := Some(user.scores.value[category := score]));
      users[i] := user;
      status := NewHighScore;
    } else {
      status := NotBeaten;
    }
  }

  // ---------------------------------------------------------------- properties

  /**
   * No result, a missing email or category, and an unknown email are reported before any
   * change; a known email leads to a new best exactly when the score beats the first match's
   * stored score for the category, 0 when there is none.
   */
  lemma OutcomeSpec(users: seq<User>, email: Option<string>, result: Option<QuizResult>)
    ensures Outcome(users, email, result) == NoResult <==> result.None?
    ensures Outcome(users, email, result) == MissingInfo <==>
      (result.Some? && (email.None? || email.value == "" || result.value.category == ""))
    ensures Outcome(users, email, result) == UserNotFound <==>
      (result.Some? && Truthy(email) && result.value.category != ""
       && forall j :: 0 <= j < |users| ==> !HasEmail(users[j], email.value))
    ensures Outcome(users, email, result) == NewHighScore <==>
      (result.Some? && Truthy(email) && result.value.category != ""
       && exists i ::
            (0 <= i < |users| && HasEmail(users[i], email.value)
             && (forall j :: 0 <= j < i ==> !HasEmail(users[j], email.value))
             && result.value.score > Score(users[i], result.value.category)))
    ensures Outcome(users, email, result) in {NoResult, MissingInfo, UserNotFound, NotBeaten}
      ==> StoredAfter(users, email, result) == users
  {
    if result.Some? && Truthy(email) && result.value.category != "" {
      var index := FindByEmail(users, email.value);
      if index.Some? {
        forall i | 0 <= i < |users| && HasEmail(users[i], email.value)
            && (forall j :: 0 <= j < i ==> !HasEmail(users[j], email.value))
          ensures i == index.value
        {
          assert !(i < index.value) && !(index.value < i);
        }
      }
    }
  }

  /**
   * Only the first user with the email changes, and only its `category` entry: the rest of
   * its record and its other categories stay as they were.
   */
  lemma OnlyCategoryChanges(users: seq<User>, email: Option<string>, result: Option<QuizResult>)
    requires Outcome(users, email, result) == NewHighScore
    ensures var after := StoredAfter(users, email, result);
      var i := FindByEmail(users, email.value).value;
      var category := result.value.category;
      && |after| == |users|
      && (forall j :: 0 <= j < |users| && j != i ==> after[j] == users[j])
      && after[i] == users[i].(scores := after[i].scores)
      && after[i].scores.Some?
      && after[i].scores.value.Keys == Normalize(users[i]).scores.value.Keys + {category}
      && after[i].scores.value[category] == result.value.score
      && (forall c :: c != category ==> Score(after[i], c) == Score(users[i], c))
  {
  }

  /** No stored score ever goes down, whatever the result. */
  lemma StoredNeverDecreases(users: seq<User>, email: Option<string>, result: Option<QuizResult>)
    ensures var after := StoredAfter(users, email, result);
      |after| == |users| && forall j, c :: 0 <= j < |users| ==> Score(after[j], c) >= Score(users[j], c)
  {
    var after := StoredAfter(users, email, result);
    if Outcome(users, email, result) == NewHighScore {
      OnlyCategoryChanges(users, email, result);
    }
  }

  /** After the merge, the found user's best in the category is the larger of the old best and the score. */
  lemma BestIsMaximum(users: seq<User>, email: Option<string>, result: Option<QuizResult>)
    requires Outcome(users, email, result) in {NewHighScore, NotBeaten}
    ensures var i := FindByEmail(users, email.value).value;
      var category := result.value.category;
      var old_best := Score(users[i], category);
      Score(StoredAfter(users, email, result)[i], category)
        == if result.value.score > old_best then result.value.score else old_best
  {
  }

  /** The merge changes no email, so it keeps every user where lookups find it. */
  lemma EmailsKept(users: seq<User>, email: Option<string>, result: Option<QuizResult>)
    ensures var after := StoredAfter(users, email, result);
      |after| == |users| && forall j :: 0 <= j < |users| ==> after[j].email == users[j].email
  {
  }

  lemma {:induction false} SameEmailsSameFind(a: seq<User>, b: seq<User>, e: string)
    requires |a| == |b| && forall j :: 0 <= j < |a| ==> a[j].email == b[j].email
    ensures FindByEmail(a, e) == FindByEmail(b, e)
  {
    if a != [] {
      SameEmailsSameFind(a[1..], b[1..], e);
    }
  }

  /** Applying the same result twice stores the same collection as applying it once. */
  lemma Idempotent(users: seq<User>, email: Option<string>, result: Option<QuizResult>)
    ensures var once := StoredAfter(users, email, result);
      StoredAfter(once, email, result) == once
    ensures Outcome(users, email, result) == NewHighScore
      ==> Outcome(StoredAfter(users, email, result), email, result) == NotBeaten
  {
    var once := StoredAfter(users, email, result);
    if Outcome(users, email, result) == NewHighScore {
      EmailsKept(users, email, result);
      SameEmailsSameFind(users, once, email.value);
      OnlyCategoryChanges(users, email, result);
    }
  }

  /** The merge keeps emails unique. */
  lemma KeepsUnique(users: seq<User>, email: Option<string>, result: Option<QuizResult>)
    requires UniqueEmails(users)
    ensures UniqueEmails(StoredAfter(users, email, result))
  {
    EmailsKept(users, email, result);
  }

  /** The handler's array also gains an empty scores map for a found user who had none, even when nothing is written back. */
  lemma ScratchNormalises(users: seq<User>, email: Option<string>, result: Option<QuizResult>)
    requires Outcome(users, email, result) == NotBeaten
    ensures var i := FindByEmail(users, email.value).value;
      var scratch := Scratch(users, email, result);
      && scratch[i] == Normalize(users[i])
      && (forall j :: 0 <= j < |users| && j != i ==> scratch[j] == users[j])
      && StoredAfter(users, email, result) == users
  {
  }

  /** Each status has its own line, so the line shown tells the outcome apart from every other. */
  lemma StatusMessagesDistinct(a: Status, b: Status)
    ensures StatusMessage(a) == StatusMessage(b) <==> a == b
  {
  }

  /**
   * On a new best the user's number of categories played stays the same when the category
   * already had a stored score and grows by one when it is played for the first time.
   */
  lemma CategoriesPlayedAfter(users: seq<User>, email: Option<string>, result: Option<QuizResult>)
    requires Outcome(users, email, result) == NewHighScore
    ensures var i := FindByEmail(users, email.value).value;
      var category := result.value.category;
      var before := users[i];
      var isNew := before.scores.None? || category !in before.scores.value;
      Profile.CategoriesPlayed(StoredAfter(users, email, result)[i])
        == Profile.CategoriesPlayed(before) + (if isNew then 1 else 0)
  {
    var i := FindByEmail(users, email.value).value;
    var category := result.value.category;
    var m := Normalize(users[i]).scores.value;
    assert StoredAfter(users, email, result)[i].scores.value == m[category := result.value.score];
    if category in m {
      assert m[category := result.value.score].Keys == m.Keys;
    } else {
      assert m[category := result.value.score].Keys == m.Keys + {category};
    }
  }
}
