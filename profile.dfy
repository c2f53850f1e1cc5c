/**
 * The profile screen: the current user's rank in each fixed category over the whole,
 * unfiltered user collection, and the user's best score per category, number of categories
 * played and highest score.
 */
module Profile {
  import opened Model
  import opened Ranking

  const Categories: seq<string> := ["Programming", "Networking", "Database", "Operating Systems"]

  /** A category rank as shown: "N/A", or the 1-based position in the sorted collection. */
  datatype Rank = NotRanked | Ranked(position: nat)

  /** `sorted.findIndex(u => u.email === email)` over the category's sort, then `position + 1` or "N/A". */
  function RankIn(users: seq<User>, category: string, email: Option<string>): Rank
  {
    if email.None? then NotRanked
    else
      var position := FindByEmail(SortByScore(users, category), email.value);
      if position.Some? then Ranked(position.value + 1) else NotRanked
  }

  /** A rank is "N/A" exactly when no user has the email; otherwise it lies in 1..|users|. */
  lemma RankPresence(users: seq<User>, category: string, email: string)
    ensures RankIn(users, category, Some(email)).NotRanked?
      <==> forall j :: 0 <= j < |users| ==> !HasEmail(users[j], email)
    ensures RankIn(users, category, Some(email)).Ranked? ==> 1 <= RankIn(users, category, Some(email)).position <= |users|
  {
    var sorted := SortByScore(users, category);
    SortSpec(users, category);
    if j :| 0 <= j < |users| && HasEmail(users[j], email) {
      assert users[j] in multiset(sorted);
      var q :| 0 <= q < |sorted| && sorted[q] == users[j];
    }
    if q :| 0 <= q < |sorted| && HasEmail(sorted[q], email) {
      assert sorted[q] in multiset(users);
      var j :| 0 <= j < |users| && users[j] == sorted[q];
    }
  }

  /** Under unique emails, the first match in the sorted collection is the user itself. */
  lemma SortedMatch(users: seq<User>, category: string, i: nat) returns (p: nat)
    requires UniqueEmails(users) && i < |users| && users[i].email.Some?
    ensures FindByEmail(SortByScore(users, category), users[i].email.value) == Some(p)
    ensures p < |users| && SortByScore(users, category)[p] == users[i]
  {
    var e := users[i].email.value;
    var sorted := SortByScore(users, category);
    SortSpec(users, category);
    FindUnique(users, e, i);
    assert users[i] in multiset(sorted);
    var r := FindByEmail(sorted, e);
    assert r.Some?;
    p := r.value;
    assert sorted[p] in multiset(users);
    var m :| 0 <= m < |users| && users[m] == sorted[p];
    FindUnique(users, e, m);
  }

  /** In a descending list, an element scoring `k` sits after all users above `k` and the earlier ties. */
  lemma PositionCount(sorted: seq<User>, category: string, p: nat)
    requires Descending(sorted, category) && p < |sorted|
    ensures var k := Score(sorted[p], category);
      p == CountAbove(sorted, category, k) + |Ties(sorted[..p], category, k)|
  {
    var k := Score(sorted[p], category);
    var before, after := sorted[..p], sorted[p..];
    assert sorted == before + after;
    assert forall q :: 0 <= q < |before| ==> Score(before[q], category) >= k by {
      forall q | 0 <= q < |before| ensures Score(before[q], category) >= k {
        assert before[q] == sorted[q];
      }
    }
    assert forall q :: 0 <= q < |after| ==> Score(after[q], category) <= k by {
      forall q | 0 <= q < |after| ensures Score(after[q], category) <= k {
        assert after[q] == sorted[p + q];
      }
    }
    SplitAtLeast(before, category, k);
    CountAboveNone(after, category, k);
    CountAboveAppend(before, after, category, k);
  }

  /** Where `u` sits among the ties of `s`, when `u == s[p]` scores `k`. */
  lemma TieIndex(s: seq<User>, category: string, p: nat)
    requires p < |s|
    ensures var k := Score(s[p], category);
      var a := |Ties(s[..p], category, k)|;
      a < |Ties(s, category, k)| && Ties(s, category, k)[a] == s[p]
      && Ties(s, category, k)[..a] == Ties(s[..p], category, k)
  {
    var k := Score(s[p], category);
    assert s == s[..p] + ([s[p]] + s[p + 1..]);
    TiesAppend(s[..p], [s[p]] + s[p + 1..], category, k);
    assert Ties([s[p]] + s[p + 1..], category, k) == [s[p]] + Ties(s[p + 1..], category, k);
  }

  /** Within a list of ties, a user who does not occur before two positions holding it sits at just one. */
  lemma SameTieIndex(ties: seq<User>, u: User, a: nat, b: nat)
    requires a < |ties| && b < |ties| && ties[a] == u && ties[b] == u
    requires u !in ties[..a] && u !in ties[..b]
    ensures a == b
  {
    assert forall q :: 0 <= q < a ==> ties[..a][q] == ties[q];
    assert forall q :: 0 <= q < b ==> ties[..b][q] == ties[q];
  }

  /** The rank is one past the sorted position of the user, and nobody before it is that user. */
  lemma RankPosition(users: seq<User>, category: string, i: nat) returns (p: nat)
    requires UniqueEmails(users) && i < |users| && users[i].email.Some?
    ensures RankIn(users, category, users[i].email) == Ranked(p + 1)
    ensures p < |SortByScore(users, category)| && SortByScore(users, category)[p] == users[i]
    ensures users[i] !in SortByScore(users, category)[..p]
  {
    var sorted := SortByScore(users, category);
    p := SortedMatch(users, category, i);
    forall q | 0 <= q < p ensures sorted[q] != users[i] {
      assert !HasEmail(sorted[q], users[i].email.value);
    }
  }

  /** A user missing from `s` is missing from its ties. */
  lemma NotInTies(s: seq<User>, category: string, v: int, u: User)
    requires u !in s
    ensures u !in Ties(s, category, v)
  {
    TiesMembers(s, category, v);
  }

  /**
   * With unique emails, a user's rank is one more than the number of users scoring strictly
   * higher plus the number of users with the same score earlier in the collection.
   */
  lemma RankFormula(users: seq<User>, category: string, i: nat)
    requires UniqueEmails(users) && i < |users| && users[i].email.Some?
    ensures var k := Score(users[i], category);
      RankIn(users, category, users[i].email)
        == Ranked(1 + CountAbove(users, category, k) + |Ties(users[..i], category, k)|)
  {
    var u := users[i];
    var k := Score(u, category);
    var sorted := SortByScore(users, category);
    var p := RankPosition(users, category, i);
    SortSpec(users, category);
    PositionCount(sorted, category, p);
    SortCountAbove(users, category, k);

    SortStable(users, category, k);
    TieIndex(sorted, category, p);
    TieIndex(users, category, i);
    assert u !in users[..i];
    NotInTies(users[..i], category, k, u);
    NotInTies(sorted[..p], category, k, u);
    SameTieIndex(Ties(users, category, k), u, |Ties(sorted[..p], category, k)|, |Ties(users[..i], category, k)|);
  }

  /** Ranks use the stable order: between users whose scores tie, the earlier one never ranks behind. */
  lemma RankTieOrder(users: seq<User>, category: string, i: nat, j: nat)
    requires UniqueEmails(users) && i < j < |users| && users[i].email.Some? && users[j].email.Some?
    requires Score(users[i], category) == Score(users[j], category)
    ensures RankIn(users, category, users[i].email).Ranked? && RankIn(users, category, users[j].email).Ranked?
    ensures RankIn(users, category, users[i].email).position < RankIn(users, category, users[j].email).position
  {
    var k := Score(users[i], category);
    RankFormula(users, category, i);
    RankFormula(users, category, j);
    assert users[..j] == users[..i] + users[i..j];
    TiesAppend(users[..i], users[i..j], category, k);
    assert users[i..j] == [users[i]] + users[i + 1..j];
  }

  /**
   * The profile's `forEach` over the fixed categories, filling `ranks[cat]` with
   * `position === -1 ? "N/A" : position + 1`.
   */
  method ComputeRanks(users: seq<User>, email: Option<string>) returns (ranks: map<string, Rank>)
    ensures ranks.Keys == set c | c in Categories
    ensures forall c :: c in ranks ==> ranks[c] == RankIn(users, c, email)
  {
    ranks := map[];
    for i := 0 to |Categories|
      invariant ranks.Keys == set c | c in Categories[..i]
      invariant forall c :: c in ranks ==> ranks[c] == RankIn(users, c, email)
    {
      var cat := Categories[i];
      var sorted := SortByScore(users, cat);
      var position := if email.Some? then FindByEmail(sorted, email.value) else None;
      ranks := ranks[cat := if position.None? then NotRanked else Ranked(position.value + 1)];
      assert Categories[..i + 1] == Categories[..i] + [cat];
    }
    assert Categories[..|Categories|] == Categories;
  }

  // ---------------------------------------------------------------- the user's own figures

  /** `users.find(u => u.email === email) || {}`: a user who is not found shows as an empty record. */
  function ProfileUser(users: seq<User>, email: Option<string>): User
  {
    if email.None? then EmptyUser
    else
      var i := FindByEmail(users, email.value);
      if i.Some? then users[i.value] else EmptyUser
  }

  /** `Object.keys(userData.scores || {}).length`. */
  function CategoriesPlayed(u: User): nat
  {
    if u.scores.Some? then |u.scores.value| else 0
  }

  /**
   * The categories played are the categories with a stored score: none means every category
   * shows 0, and a player with one has a highest score that is at least its stored value.
   */
  lemma CategoriesPlayedSpec(u: User)
    ensures u.scores.Some? ==> CategoriesPlayed(u) == |u.scores.value.Keys|
    ensures CategoriesPlayed(u) == 0 ==> forall c :: Score(u, c) == 0
    ensures CategoriesPlayed(u) > 0 ==> HighestScore(u).Some? && forall c :: c in u.scores.value ==> Score(u, c) <= HighestScore(u).value
  {
    if u.scores.Some? && CategoriesPlayed(u) == 0 {
      assert u.scores.value == map[];
    }
  }

  /** The largest value stored in a non-empty scores map. */
  ghost function MaxValue(m: map<string, int>): (r: int)
    requires m != map[]
    ensures exists c :: c in m && m[c] == r
    ensures forall c :: c in m ==> m[c] <= r
    decreases |m|
  {
    var c :| c in m;
    var others := m - {c};
    if others == map[] then
      assert forall d :: d in m ==> d == c || d in others;
      m[c]
    else
      var rest := MaxValue(others);
      assert forall d :: d in m && d != c ==> d in others && others[d] == m[d];
      if m[c] >= rest then m[c] else rest
  }

  /**
   * `Math.max(...Object.values(userData.scores || { 0: 0 }))`; None stands for the
   * `-Infinity` that a present but empty scores object yields.
   */
  ghost function HighestScore(u: User): Option<int>
  {
    if u.scores.None? then Some(0)
    else if u.scores.value == map[] then None
    else Some(MaxValue(u.scores.value))
  }

  /** The highest score is a stored score at least as large as every other, 0 without a scores map. */
  lemma HighestScoreSpec(u: User)
    ensures u.scores.None? ==> HighestScore(u) == Some(0)
    ensures u.scores.Some? ==> (HighestScore(u).None? <==> |u.scores.value| == 0)
    ensures HighestScore(u).Some? && u.scores.Some? ==>
      && (exists c :: c in u.scores.value && Score(u, c) == HighestScore(u).value)
      && (forall c :: c in u.scores.value ==> Score(u, c) <= HighestScore(u).value)
  {
  }

  /** A user who is not in the collection shows score 0 everywhere, no categories played and highest score 0. */
  lemma MissingUserProfile(users: seq<User>, email: Option<string>)
    requires email.None? || forall j :: 0 <= j < |users| ==> !HasEmail(users[j], email.value)
    ensures ProfileUser(users, email) == EmptyUser
    ensures forall c :: Score(ProfileUser(users, email), c) == 0
    ensures CategoriesPlayed(ProfileUser(users, email)) == 0
    ensures HighestScore(ProfileUser(users, email)) == Some(0)
  {
  }

  /** A user who is in the collection shows the first matching record's stored scores. */
  lemma FoundUserProfile(users: seq<User>, i: nat)
    requires UniqueEmails(users) && i < |users| && users[i].email.Some?
    ensures ProfileUser(users, users[i].email) == users[i]
    ensures forall c :: Score(ProfileUser(users, users[i].email), c) == Score(users[i], c)
  {
    FindUnique(users, users[i].email.value, i);
  }
}
