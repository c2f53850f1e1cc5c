/**
 * The leaderboard screen: the fetched records with malformed entries filtered out, sorted by
 * the selected category's score (highest first, stable), one row per user with its 1-based
 * rank, name and score, and the logged-in user's row highlighted.
 */
module Leaderboard {
  import opened Model
  import opened Ranking
  import Profile

  /** The category shown before the player picks one. */
  const InitialCategory := "Programming"

  /** The category shown first is one of the four category buttons. */
  lemma InitialCategoryListed()
    ensures InitialCategory in Profile.Categories && InitialCategory == Profile.Categories[0]
  {
  }

  /**
   * One element of the fetched `record` array. `NotAnObject` stands for everything whose
   * `typeof` is not "object" or that is null, and for arrays, which never carry the user fields.
   */
  datatype Entry = NotAnObject | Object(user: User)

  /** `Object.keys(u).length` over the user fields the record carries. */
  function KeyCount(u: User): nat
  {
    (if u.name.Some? then 1 else 0) + (if u.email.Some? then 1 else 0)
    + (if u.mobile.Some? then 1 else 0) + (if u.password.Some? then 1 else 0)
    + (if u.scores.Some? then 1 else 0)
  }

  /** The filter's test: a non-null object with at least one key and a truthy `email` and `name`. */
  predicate IsValid(e: Entry)
  {
    e.Object? && KeyCount(e.user) > 0 && Truthy(e.user.email) && Truthy(e.user.name)
  }

  /** `usersData.filter(...)`: the valid entries' users, in input order. */
  function ValidUsers(entries: seq<Entry>): (r: seq<User>)
    ensures |r| <= |entries|
  {
    if entries == [] then []
    else (if IsValid(entries[0]) then [entries[0].user] else []) + ValidUsers(entries[1..])
  }

  /** The key-count test adds nothing: a truthy email already is a key. */
  lemma KeyCountImplied(e: Entry)
    ensures IsValid(e) <==> e.Object? && Truthy(e.user.email) && Truthy(e.user.name)
  {
  }

  /** The filter works record by record, so it distributes over concatenation. */
  lemma {:induction false} ValidUsersAppend(a: seq<Entry>, b: seq<Entry>)
    ensures ValidUsers(a + b) == ValidUsers(a) + ValidUsers(b)
  {
    if a != [] {
      assert (a + b)[0] == a[0] && (a + b)[1..] == a[1..] + b;
      ValidUsersAppend(a[1..], b);
    } else {
      assert a + b == b;
    }
  }

  /** A user is kept exactly when it came from a record that passes the filter. */
  lemma {:induction false} ValidUsersMembers(entries: seq<Entry>)
    ensures forall u :: u in ValidUsers(entries) <==> Object(u) in entries && IsValid(Object(u))
  {
    if entries != [] {
      ValidUsersMembers(entries[1..]);
      assert entries == [entries[0]] + entries[1..];
    }
  }

  /** The rows are the valid users, as a permutation that is descending and stable. */
  function Sorted(entries: seq<Entry>, category: string): seq<User>
  {
    SortByScore(ValidUsers(entries), category)
  }

  lemma SortedSpec(entries: seq<Entry>, category: string)
    ensures multiset(Sorted(entries, category)) == multiset(ValidUsers(entries))
    ensures Descending(Sorted(entries, category), category)
    ensures forall v :: Ties(Sorted(entries, category), category, v) == Ties(ValidUsers(entries), category, v)
    ensures forall u :: u in Sorted(entries, category) ==> Truthy(u.email) && Truthy(u.name)
  {
    SortSpec(ValidUsers(entries), category);
    forall v ensures Ties(Sorted(entries, category), category, v) == Ties(ValidUsers(entries), category, v) {
      SortStable(ValidUsers(entries), category, v);
    }
    ValidUsersMembers(entries);
    forall u | u in Sorted(entries, category) ensures Truthy(u.email) && Truthy(u.name) {
      assert u in multiset(Sorted(entries, category));
      assert u in ValidUsers(entries);
    }
  }

  // ---------------------------------------------------------------- the rendered board

  /** One list item: a row, or the `null` rendered for a user without a name or an email. */
  datatype Line = Shown(rank: nat, name: string, score: int, highlighted: bool) | Hidden

  /** What the list shows: "No players found." or the rows. */
  datatype View = NoPlayers | Table(lines: seq<Line>)

  /** The item for `sortedUsers[index]`. */
  function LineOf(u: User, index: nat, category: string, currentUser: Option<string>): Line
  {
    if Truthy(u.name) && Truthy(u.email) then
      Shown(index + 1, u.name.value, Score(u, category), u.email == currentUser)
    else Hidden
  }

  function Lines(sorted: seq<User>, category: string, currentUser: Option<string>): seq<Line>
  {
    seq(|sorted|, i requires 0 <= i < |sorted| => LineOf(sorted[i], i, category, currentUser))
  }

  /** The board for the fetched records, the selected category and the stored `userEmail`. */
  function Board(entries: seq<Entry>, category: string, currentUser: Option<string>): View
  {
    var sorted := Sorted(entries, category);
    if |sorted| > 0 then Table(Lines(sorted, category, currentUser)) else NoPlayers
  }

  /** "No players found." shows exactly when no record passes the filter. */
  lemma NoPlayersSpec(entries: seq<Entry>, category: string, currentUser: Option<string>)
    ensures Board(entries, category, currentUser) == NoPlayers
      <==> forall k :: 0 <= k < |entries| ==> !IsValid(entries[k])
  {
    SortedSpec(entries, category);
    ValidUsersMembers(entries);
    if k :| 0 <= k < |entries| && IsValid(entries[k]) {
      assert entries[k].user in ValidUsers(entries);
      assert entries[k].user in multiset(Sorted(entries, category));
    }
    if |Sorted(entries, category)| > 0 {
      var u := Sorted(entries, category)[0];
      assert u in multiset(ValidUsers(entries));
      assert Object(u) in entries;
    }
  }

  /**
   * Every row is shown; row i carries rank i + 1, the name and category score of the i-th
   * sorted user, and is highlighted exactly when that user's email is the stored one.
   */
  lemma BoardRows(entries: seq<Entry>, category: string, currentUser: Option<string>)
    requires Board(entries, category, currentUser).Table?
    ensures var sorted := Sorted(entries, category);
      var lines := Board(entries, category, currentUser).lines;
      |lines| == |sorted| &&
      forall i :: 0 <= i < |lines| ==>
        && lines[i].Shown?
        && lines[i].rank == i + 1
        && Some(lines[i].name) == sorted[i].name
        && lines[i].score == Score(sorted[i], category)
        && (lines[i].highlighted <==> currentUser.Some? && sorted[i].email == currentUser)
  {
    var sorted := Sorted(entries, category);
    SortedSpec(entries, category);
    forall i | 0 <= i < |sorted| ensures Truthy(sorted[i].email) && Truthy(sorted[i].name) {
      assert sorted[i] in sorted;
    }
  }

  /** The scores shown never increase down the board. */
  lemma BoardDescending(entries: seq<Entry>, category: string, currentUser: Option<string>)
    requires Board(entries, category, currentUser).Table?
    ensures var lines := Board(entries, category, currentUser).lines;
      forall i, j :: 0 <= i < j < |lines| ==> lines[i].Shown? && lines[j].Shown? && lines[i].score >= lines[j].score
  {
    BoardRows(entries, category, currentUser);
    SortedSpec(entries, category);
  }

  /** With unique emails among the valid users, at most one row is highlighted. */
  lemma OneHighlight(entries: seq<Entry>, category: string, currentUser: Option<string>)
    requires UniqueEmails(ValidUsers(entries))
    requires Board(entries, category, currentUser).Table?
    ensures var lines := Board(entries, category, currentUser).lines;
      forall i, j ::
        (0 <= i < |lines| && 0 <= j < |lines| && lines[i].Shown? && lines[j].Shown?
         && lines[i].highlighted && lines[j].highlighted) ==> i == j
  {
    BoardRows(entries, category, currentUser);
    SortUnique(ValidUsers(entries), category);
  }

  // ---------------------------------------------------------------- the profile's ranks

  /** The records as the fetched array would hold them. */
  function AsEntries(users: seq<User>): (r: seq<Entry>)
    ensures |r| == |users| && forall i :: 0 <= i < |users| ==> r[i] == Object(users[i])
  {
    seq(|users|, i requires 0 <= i < |users| => Object(users[i]))
  }

  lemma {:induction false} AllValid(users: seq<User>)
    requires forall i :: 0 <= i < |users| ==> Truthy(users[i].email) && Truthy(users[i].name)
    ensures ValidUsers(AsEntries(users)) == users
  {
    if users != [] {
      AllValid(users[1..]);
      assert AsEntries(users)[1..] == AsEntries(users[1..]);
    }
  }

  /**
   * When every record is a named user with an email, the profile's rank for the stored email
   * is the rank on the highlighted row of the leaderboard.
   */
  lemma RanksAgree(users: seq<User>, category: string, email: string)
    requires forall i :: 0 <= i < |users| ==> Truthy(users[i].email) && Truthy(users[i].name)
    requires Profile.RankIn(users, category, Some(email)).Ranked?
    ensures Board(AsEntries(users), category, Some(email)).Table?
    ensures var r := Profile.RankIn(users, category, Some(email)).position;
      var lines := Board(AsEntries(users), category, Some(email)).lines;
      1 <= r <= |lines| && lines[r - 1].Shown? && lines[r - 1].rank == r && lines[r - 1].highlighted
  {
    AllValid(users);
    SortSpec(users, category);
    BoardRows(AsEntries(users), category, Some(email));
  }

  /** A record without a name, ahead of a named player in the collection. */
  const Unnamed := User(None, Some("a@x"), None, None, Some(map["Programming" := 5]))
  const Player := User(Some("Bea"), Some("b@x"), None, None, None)

  lemma UnnamedFirst()
    ensures SortByScore([Unnamed, Player], "Programming") == [Unnamed, Player]
  {
    assert Score(Unnamed, "Programming") == 5;
    assert Score(Player, "Programming") == 0;
    assert [Unnamed, Player][..1] == [Unnamed];
    assert SortByScore([Unnamed], "Programming") == [Unnamed];
    assert [Unnamed][1..] == [];
    assert Insert(Player, [Unnamed], "Programming") == [Unnamed, Player];
  }

  lemma OnlyPlayerValid()
    ensures Sorted([Object(Unnamed), Object(Player)], "Programming") == [Player]
  {
    assert [Object(Unnamed), Object(Player)][1..] == [Object(Player)];
    assert ValidUsers([Object(Unnamed), Object(Player)]) == [Player];
    assert SortByScore([Player], "Programming") == [Player];
  }

  /**
   * The profile ranks over the unfiltered collection and the leaderboard over the filtered one,
   * so an unnamed record ahead of a player moves the two ranks apart.
   */
  lemma RanksDiffer()
    ensures Profile.RankIn([Unnamed, Player], "Programming", Some("b@x")) == Profile.Ranked(2)
    ensures Board([Object(Unnamed), Object(Player)], "Programming", Some("b@x"))
      == Table([Shown(1, "Bea", 0, true)])
  {
    UnnamedFirst();
    OnlyPlayerValid();
    assert FindByEmail([Unnamed, Player], "b@x") == Some(1) by {
      assert !HasEmail(Unnamed, "b@x");
      assert [Unnamed, Player][1..] == [Player];
    }
    assert Score(Player, "Programming") == 0;
  }
}
