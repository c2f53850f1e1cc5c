/**
 * Ordering users by their score in one category, highest first, as the leaderboard and the
 * profile screen do with `[...users].sort((a, b) => score(b) - score(a))`. ECMAScript's
 * `Array.prototype.sort` is stable, so users with equal scores keep their relative order; the
 * model is the insertion sort that places each user after every earlier user scoring at least
 * as much.
 */
module Ranking {
  import opened Model

  /** Place `x` into a descending list after every user scoring at least as much as `x`. */
  function Insert(x: User, sorted: seq<User>, category: string): seq<User>
  {
    if sorted == [] then [x]
    else if Score(sorted[0], category) < Score(x, category) then [x] + sorted
    else [sorted[0]] + Insert(x, sorted[1..], category)
  }

  /** The stable sort of `users` by descending score in `category`; the input is not changed. */
  function SortByScore(users: seq<User>, category: string): seq<User>
  {
    if users == [] then []
    else Insert(users[|users| - 1], SortByScore(users[..|users| - 1], category), category)
  }

  /** Scores never increase along `s`. */
  predicate Descending(s: seq<User>, category: string)
  {
    forall i, j :: 0 <= i < j < |s| ==> Score(s[i], category) >= Score(s[j], category)
  }

  /** The users of `s` scoring exactly `v`, in their order in `s`. */
  function Ties(s: seq<User>, category: string, v: int): seq<User>
  {
    if s == [] then []
    else (if Score(s[0], category) == v then [s[0]] else []) + Ties(s[1..], category, v)
  }

  /** The number of users of `s` scoring strictly more than `v`. */
  function CountAbove(s: seq<User>, category: string, v: int): nat
  {
    if s == [] then 0
    else (if Score(s[0], category) > v then 1 else 0) + CountAbove(s[1..], category, v)
  }

  // ---------------------------------------------------------------- counting lemmas

  lemma {:induction false} TiesAppend(a: seq<User>, b: seq<User>, category: string, v: int)
    ensures Ties(a + b, category, v) == Ties(a, category, v) + Ties(b, category, v)
  {
    if a != [] {
      assert (a + b)[0] == a[0] && (a + b)[1..] == a[1..] + b;
      TiesAppend(a[1..], b, category, v);
    } else {
      assert a + b == b;
    }
  }

  lemma {:induction false} CountAboveAppend(a: seq<User>, b: seq<User>, category: string, v: int)
    ensures CountAbove(a + b, category, v) == CountAbove(a, category, v) + CountAbove(b, category, v)
  {
    if a != [] {
      assert (a + b)[0] == a[0] && (a + b)[1..] == a[1..] + b;
      CountAboveAppend(a[1..], b, category, v);
    } else {
      assert a + b == b;
    }
  }

  /** Every tie of `s` is a user of `s` scoring `v`. */
  lemma {:induction false} TiesMembers(s: seq<User>, category: string, v: int)
    ensures forall u :: u in Ties(s, category, v) ==> u in s && Score(u, category) == v
  {
    if s != [] {
      TiesMembers(s[1..], category, v);
    }
  }

  lemma {:induction false} TiesNone(s: seq<User>, category: string, v: int)
    requires forall i :: 0 <= i < |s| ==> Score(s[i], category) != v
    ensures Ties(s, category, v) == []
  {
    if s != [] {
      TiesNone(s[1..], category, v);
    }
  }

  lemma {:induction false} CountAboveNone(s: seq<User>, category: string, v: int)
    requires forall i :: 0 <= i < |s| ==> Score(s[i], category) <= v
    ensures CountAbove(s, category, v) == 0
  {
    if s != [] {
      CountAboveNone(s[1..], category, v);
    }
  }

  /** A list scoring at least `v` throughout splits into the users above `v` and the ties at `v`. */
  lemma {:induction false} SplitAtLeast(s: seq<User>, category: string, v: int)
    requires forall i :: 0 <= i < |s| ==> Score(s[i], category) >= v
    ensures |s| == CountAbove(s, category, v) + |Ties(s, category, v)|
  {
    if s != [] {
      SplitAtLeast(s[1..], category, v);
    }
  }

  // ---------------------------------------------------------------- insertion

  lemma {:induction false} InsertPermutes(x: User, s: seq<User>, category: string)
    ensures multiset(Insert(x, s, category)) == multiset(s) + multiset{x}
    ensures |Insert(x, s, category)| == |s| + 1
  {
    if s != [] && Score(s[0], category) >= Score(x, category) {
      InsertPermutes(x, s[1..], category);
      assert s == [s[0]] + s[1..];
    }
  }

  lemma {:induction false} InsertDescending(x: User, s: seq<User>, category: string)
    requires Descending(s, category)
    ensures Descending(Insert(x, s, category), category)
  {
    if s != [] && Score(s[0], category) >= Score(x, category) {
      var rest := Insert(x, s[1..], category);
      InsertDescending(x, s[1..], category);
      InsertPermutes(x, s[1..], category);
      forall k | 0 <= k < |rest|
        ensures Score(s[0], category) >= Score(rest[k], category)
      {
        assert rest[k] in multiset(s[1..]) + multiset{x};
        if rest[k] != x {
          assert rest[k] in s[1..];
        }
      }
    }
  }

  lemma {:induction false} InsertTies(x: User, s: seq<User>, category: string, v: int)
    requires Descending(s, category)
    ensures Ties(Insert(x, s, category), category, v)
      == Ties(s, category, v) + (if Score(x, category) == v then [x] else [])
  {
    if s == [] {
    } else if Score(s[0], category) < Score(x, category) {
      if Score(x, category) == v {
        TiesNone(s, category, v);
      }
    } else {
      InsertTies(x, s[1..], category, v);
    }
  }

  lemma {:induction false} InsertCountAbove(x: User, s: seq<User>, category: string, v: int)
    ensures CountAbove(Insert(x, s, category), category, v)
      == CountAbove(s, category, v) + (if Score(x, category) > v then 1 else 0)
  {
    if s != [] && Score(s[0], category) >= Score(x, category) {
      InsertCountAbove(x, s[1..], category, v);
    }
  }

  lemma {:induction false} InsertUnique(x: User, s: seq<User>, category: string)
    requires UniqueEmails(s)
    requires x.email.Some? ==> forall k :: 0 <= k < |s| ==> s[k].email != x.email
    ensures UniqueEmails(Insert(x, s, category))
  {
    if s != [] && Score(s[0], category) >= Score(x, category) {
      var rest := Insert(x, s[1..], category);
      InsertUnique(x, s[1..], category);
      InsertPermutes(x, s[1..], category);
      forall k | 0 <= k < |rest| && s[0].email.Some?
        ensures s[0].email != rest[k].email
      {
        assert rest[k] in multiset(s[1..]) + multiset{x};
        if rest[k] != x {
          var m :| 0 <= m < |s[1..]| && s[1..][m] == rest[k];
          assert s[m + 1] == rest[k];
        }
      }
    }
  }

  // ---------------------------------------------------------------- the sort

  /** The sorted list is a permutation of the input and is non-increasing in score. */
  lemma {:induction false} SortSpec(users: seq<User>, category: string)
    ensures |SortByScore(users, category)| == |users|
    ensures multiset(SortByScore(users, category)) == multiset(users)
    ensures Descending(SortByScore(users, category), category)
  {
    if users != [] {
      var init := users[..|users| - 1];
      SortSpec(init, category);
      InsertPermutes(users[|users| - 1], SortByScore(init, category), category);
      InsertDescending(users[|users| - 1], SortByScore(init, category), category);
      assert users == init + [users[|users| - 1]];
    }
  }

  /** Stability: the users with any one score appear in the sorted list in their input order. */
  lemma {:induction false} SortStable(users: seq<User>, category: string, v: int)
    ensures Ties(SortByScore(users, category), category, v) == Ties(users, category, v)
  {
    if users != [] {
      var init := users[..|users| - 1];
      var last := users[|users| - 1];
      var tail := if Score(last, category) == v then [last] else [];
      SortStable(init, category, v);
      SortSpec(init, category);
      InsertTies(last, SortByScore(init, category), category, v);
      assert Ties(SortByScore(users, category), category, v) == Ties(init, category, v) + tail;
      assert Ties([last], category, v) == tail by {
        assert [last][1..] == [];
      }
      assert users == init + [last];
      TiesAppend(init, [last], category, v);
    }
  }

  /** Sorting keeps the number of users above any score. */
  lemma {:induction false} SortCountAbove(users: seq<User>, category: string, v: int)
    ensures CountAbove(SortByScore(users, category), category, v) == CountAbove(users, category, v)
  {
    if users != [] {
      var init := users[..|users| - 1];
      var last := users[|users| - 1];
      SortCountAbove(init, category, v);
      InsertCountAbove(last, SortByScore(init, category), category, v);
      assert users == init + [last];
      CountAboveAppend(init, [last], category, v);
    }
  }

  /** Sorting keeps email uniqueness. */
  lemma {:induction false} SortUnique(users: seq<User>, category: string)
    requires UniqueEmails(users)
    ensures UniqueEmails(SortByScore(users, category))
  {
    if users != [] {
      var init := users[..|users| - 1];
      var last := users[|users| - 1];
      var sortedInit := SortByScore(init, category);
      assert UniqueEmails(init) by {
        forall a, b | 0 <= a < b < |init| && init[a].email.Some?
          ensures init[a].email != init[b].email
        {
          assert init[a] == users[a] && init[b] == users[b];
        }
      }
      SortUnique(init, category);
      SortSpec(init, category);
      forall k | 0 <= k < |sortedInit| && last.email.Some?
        ensures sortedInit[k].email != last.email
      {
        assert sortedInit[k] in multiset(init);
        var m :| 0 <= m < |init| && init[m] == sortedInit[k];
        assert users[m] == sortedInit[k];
      }
      InsertUnique(last, sortedInit, category);
    }
  }
}
