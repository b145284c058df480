/** `compareUsers`, the three-way username comparison both forms pass to
    `users.sort`, and the display order it produces. */
module Ordering {
  import opened JsStrings
  import opened Accounts

  /** -1, 0 or 1 as `a.username` is below, equal to or above `b.username`
      under JavaScript's `<` and `>` on strings. */
  function CompareUsers(a: User, b: User): (r: int)
    ensures r == -1 || r == 0 || r == 1
    ensures r == 0 <==> a.username == b.username
    ensures r == -1 <==> Less(a.username, b.username)
    ensures r == 1 <==> Less(b.username, a.username)
  {
    LessIrreflexive(a.username);
    LessTrichotomous(a.username, b.username);
    LessAsymmetric(a.username, b.username);
    if Less(a.username, b.username) then -1
    else if Less(b.username, a.username) then 1
    else 0
  }

  /** Swapping the arguments negates the result. */
  lemma CompareUsersAntisymmetric(a: User, b: User)
    ensures CompareUsers(a, b) == -CompareUsers(b, a)
  {
    LessAsymmetric(a.username, b.username);
  }

  /** "compares at most" is transitive ... */
  lemma CompareUsersTransitive(a: User, b: User, c: User)
    requires CompareUsers(a, b) <= 0 && CompareUsers(b, c) <= 0
    ensures CompareUsers(a, c) <= 0
  {
    if CompareUsers(a, b) < 0 && CompareUsers(b, c) < 0 {
      LessTransitive(a.username, b.username, c.username);
    }
    LessAsymmetric(a.username, c.username);
  }

  /** ... and total, so `compareUsers` is a total preorder on users whose
      equivalence classes are the usernames. */
  lemma CompareUsersTotal(a: User, b: User)
    ensures CompareUsers(a, b) <= 0 || CompareUsers(b, a) <= 0
  {
  }

  /** Non-decreasing under `compareUsers`. */
  predicate SortedByName(users: seq<User>)
  {
    forall i, j :: 0 <= i < j < |users| ==> CompareUsers(users[i], users[j]) <= 0
  }

  /** A head that is at most every element of a sorted list keeps it sorted. */
  lemma SortedCons(h: User, users: seq<User>)
    requires SortedByName(users)
    requires forall u :: u in users ==> CompareUsers(h, u) <= 0
    ensures SortedByName([h] + users)
  {
  }

  /** Places `u` in front of the first element it is at most, so earlier
      elements stay ahead of later ones with the same username. */
  function Insert(u: User, users: seq<User>): (r: seq<User>)
    requires SortedByName(users)
    ensures SortedByName(r)
    ensures multiset(r) == multiset(users) + multiset{u}
    decreases |users|
  {
    if |users| == 0 then [u]
    else if CompareUsers(u, users[0]) <= 0 then
      HeadIsMinimum(u, users);
      SortedCons(u, users);
      [u] + users
    else
      var rest := Insert(u, users[1..]);
      InsertBehindHead(u, users, rest);
      [users[0]] + rest
  }

  /** The step of `Insert` that keeps the head in front. */
  lemma InsertBehindHead(u: User, users: seq<User>, rest: seq<User>)
    requires SortedByName(users) && |users| > 0 && CompareUsers(u, users[0]) > 0
    requires SortedByName(rest) && multiset(rest) == multiset(users[1..]) + multiset{u}
    ensures SortedByName([users[0]] + rest)
    ensures multiset([users[0]] + rest) == multiset(users) + multiset{u}
  {
    CompareUsersAntisymmetric(u, users[0]);
    SortedTail(users);
    HeadIsMinimum(users[0], users[1..]);
    forall v | v in rest ensures CompareUsers(users[0], v) <= 0 {
      assert v in multiset(rest);
    }
    SortedCons(users[0], rest);
    assert users == [users[0]] + users[1..];
  }

  /** Something at most the head of a sorted list is at most all of it. */
  lemma HeadIsMinimum(h: User, users: seq<User>)
    requires SortedByName(users)
    requires |users| > 0 ==> CompareUsers(h, users[0]) <= 0
    ensures forall u :: u in users ==> CompareUsers(h, u) <= 0
  {
    forall u | u in users ensures CompareUsers(h, u) <= 0 {
      var k :| 0 <= k < |users| && users[k] == u;
      if k > 0 {
        CompareUsersTransitive(h, users[0], u);
      }
    }
  }

  /** The display order of `users.sort(compareUsers)`: a sorted permutation. */
  function SortUsers(users: seq<User>): (r: seq<User>)
    ensures SortedByName(r)
    ensures multiset(r) == multiset(users)
    decreases |users|
  {
    if |users| == 0 then []
    else
      assert users == [users[0]] + users[1..];
      Insert(users[0], SortUsers(users[1..]))
  }

  /** Two sorted permutations of a list with distinct usernames start alike. */
  lemma SortedHeadsAgree(a: seq<User>, b: seq<User>)
    requires SortedByName(a) && SortedByName(b)
    requires multiset(a) == multiset(b)
    requires DistinctUsernames(a)
    requires |a| > 0
    ensures |b| > 0 && a[0] == b[0]
  {
    assert a[0] in multiset(b);
    var j :| 0 <= j < |b| && b[j] == a[0];
    assert b[0] in multiset(a);
    var i :| 0 <= i < |a| && a[i] == b[0];
    if i != 0 {
      var x, y := a[0], a[i];
      assert CompareUsers(x, y) <= 0;
      if j != 0 {
        assert CompareUsers(y, x) <= 0;
      }
      CompareUsersAntisymmetric(x, y);
    }
  }

  /** Dropping the head keeps a list sorted. */
  lemma SortedTail(users: seq<User>)
    requires SortedByName(users) && |users| > 0
    ensures SortedByName(users[1..])
  {
  }

  /** Two permutations of each other with the same head have permuted tails. */
  lemma PermutationTails(a: seq<User>, b: seq<User>)
    requires multiset(a) == multiset(b) && |a| > 0 && |b| > 0 && a[0] == b[0]
    ensures multiset(a[1..]) == multiset(b[1..])
  {
    assert a == [a[0]] + a[1..] && b == [b[0]] + b[1..];
    forall u ensures multiset(a[1..])[u] == multiset(b[1..])[u] {
      assert multiset(a)[u] == multiset{a[0]}[u] + multiset(a[1..])[u];
      assert multiset(b)[u] == multiset{a[0]}[u] + multiset(b[1..])[u];
    }
  }

  /** When usernames are distinct there is only one sorted arrangement, so
      every correct sort, stable or not, shows the same table. */
  lemma {:induction false} SortedPermutationUnique(a: seq<User>, b: seq<User>)
    requires SortedByName(a) && SortedByName(b)
    requires multiset(a) == multiset(b)
    requires DistinctUsernames(a)
    ensures a == b
    decreases |a|
  {
    if |a| == 0 {
      assert |multiset(b)| == 0;
    } else {
      SortedHeadsAgree(a, b);
      PermutationTails(a, b);
      SortedTail(a);
      SortedTail(b);
      DistinctTail(a);
      SortedPermutationUnique(a[1..], b[1..]);
      assert a == [a[0]] + a[1..] && b == [b[0]] + b[1..];
    }
  }
}
