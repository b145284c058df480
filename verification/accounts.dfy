/** The security settings document edited by the account-management form:
    a list of `User` records plus an opaque signing secret (`jwt_secret`),
    loaded and saved as one unit. The list operations below are the ones the
    form applies to `users`: `find`, and `filter` by username. */
module Accounts {
  import opened Wrappers
  import opened JsStrings

  /** An account. The username is the key the form filters by. */
  datatype User = User(username: JsString, password: JsString, admin: bool)

  /** The whole settings document; `jwtSecret` is carried through untouched. */
  datatype Settings = Settings(users: seq<User>, jwtSecret: JsString)

  /** No two users in the list share a username. */
  predicate DistinctUsernames(users: seq<User>)
  {
    forall i, j :: 0 <= i < j < |users| ==> users[i].username != users[j].username
  }

  /** `users.find(p)`: the first user satisfying `p`, or `undefined`. */
  function FindUser(users: seq<User>, p: User -> bool): (r: Option<User>)
    ensures r.None? <==> forall i :: 0 <= i < |users| ==> !p(users[i])
    ensures r.Some? ==> r.value in users && p(r.value)
    ensures r.Some? ==> exists k :: 0 <= k < |users| && users[k] == r.value && forall j :: 0 <= j < k ==> !p(users[j])
    decreases |users|
  {
    if |users| == 0 then None
    else if p(users[0]) then Some(users[0])
    else
      var rest := FindUser(users[1..], p);
      if rest.Some? then FirstMatchBehindHead(users, p, rest.value); rest
      else rest
  }

  /** A first match in the tail, behind a head that does not match, is the
      first match of the whole list. */
  lemma FirstMatchBehindHead(users: seq<User>, p: User -> bool, x: User)
    requires |users| > 0 && !p(users[0])
    requires exists k :: 0 <= k < |users[1..]| && users[1..][k] == x && forall j :: 0 <= j < k ==> !p(users[1..][j])
    ensures exists k :: 0 <= k < |users| && users[k] == x && forall j :: 0 <= j < k ==> !p(users[j])
  {
    var k :| 0 <= k < |users[1..]| && users[1..][k] == x && forall j :: 0 <= j < k ==> !p(users[1..][j]);
    assert users[k + 1] == x;
    forall j | 0 <= j < k + 1 ensures !p(users[j]) {
      if j > 0 {
        assert users[j] == users[1..][j - 1];
      }
    }
  }

  /** `users.filter(u => u.username !== name)`. */
  function WithoutUsername(users: seq<User>, name: JsString): (r: seq<User>)
    ensures forall u :: u in r <==> u in users && u.username != name
    ensures (forall i :: 0 <= i < |users| ==> users[i].username != name) ==> r == users
    decreases |users|
  {
    if |users| == 0 then []
    else
      var rest := WithoutUsername(users[1..], name);
      if users[0].username == name then rest else [users[0]] + rest
  }

  /** Filtering keeps every user with another name as often as it occurred,
      and none with that name. */
  lemma {:induction false} WithoutUsernameCounts(users: seq<User>, name: JsString)
    ensures forall u :: multiset(WithoutUsername(users, name))[u]
                        == if u.username == name then 0 else multiset(users)[u]
    decreases |users|
  {
    if |users| > 0 {
      WithoutUsernameCounts(users[1..], name);
      assert users == [users[0]] + users[1..];
    }
  }

  /** Filtering cannot create a duplicate username. */
  lemma {:induction false} WithoutUsernameKeepsDistinct(users: seq<User>, name: JsString)
    ensures DistinctUsernames(users) ==> DistinctUsernames(WithoutUsername(users, name))
    decreases |users|
  {
    if |users| > 0 && DistinctUsernames(users) {
      var t := users[1..];
      DistinctTail(users);
      WithoutUsernameKeepsDistinct(t, name);
      var rest := WithoutUsername(t, name);
      forall k | 0 <= k < |rest| ensures rest[k].username != users[0].username {
        assert rest[k] in t;
        var m :| 0 <= m < |t| && t[m] == rest[k];
        assert users[m + 1] == rest[k];
      }
    }
  }

  /** Filtering keeps the relative order: it distributes over concatenation. */
  lemma {:induction false} WithoutUsernameAppend(a: seq<User>, b: seq<User>, name: JsString)
    ensures WithoutUsername(a + b, name) == WithoutUsername(a, name) + WithoutUsername(b, name)
    decreases |a|
  {
    if |a| == 0 {
      assert a + b == b;
    } else {
      assert (a + b)[0] == a[0] && (a + b)[1..] == a[1..] + b;
      WithoutUsernameAppend(a[1..], b, name);
    }
  }

  /** Filtering twice by the same name is filtering once. */
  lemma WithoutUsernameIdempotent(users: seq<User>, name: JsString)
    ensures WithoutUsername(WithoutUsername(users, name), name) == WithoutUsername(users, name)
  {
  }

  /** In a list with distinct usernames, filtering out the name of a member
      removes exactly that member. */
  lemma {:induction false} WithoutUsernameRemovesOne(users: seq<User>, x: User)
    requires DistinctUsernames(users)
    requires x in users
    ensures multiset(WithoutUsername(users, x.username)) + multiset{x} == multiset(users)
    ensures |WithoutUsername(users, x.username)| == |users| - 1
    decreases |users|
  {
    var t := users[1..];
    assert users == [users[0]] + t;
    DistinctTail(users);
    if users[0] == x {
      forall i | 0 <= i < |t| ensures t[i].username != x.username {
        assert t[i] == users[i + 1];
      }
    } else {
      var k :| 0 <= k < |users| && users[k] == x;
      assert t[k - 1] == x;
      WithoutUsernameRemovesOne(t, x);
    }
    assert |multiset(WithoutUsername(users, x.username))| + 1 == |multiset(users)|;
  }

  /** Dropping the head keeps usernames distinct. */
  lemma DistinctTail(users: seq<User>)
    requires DistinctUsernames(users) && |users| > 0
    ensures DistinctUsernames(users[1..])
  {
  }

  /** A list with distinct usernames has no element twice. */
  lemma {:induction false} DistinctHasNoRepeats(users: seq<User>, u: User)
    requires DistinctUsernames(users)
    ensures multiset(users)[u] <= 1
    decreases |users|
  {
    if |users| > 0 {
      var t := users[1..];
      assert users == [users[0]] + t;
      DistinctTail(users);
      DistinctHasNoRepeats(t, u);
      if u == users[0] {
        forall k | 0 <= k < |t| ensures t[k] != u {
          assert t[k] == users[k + 1];
        }
        assert u !in t;
      }
    }
  }

  /** An element found at two positions occurs at least twice. */
  lemma RepeatCountsTwice(b: seq<User>, i: int, j: int)
    requires 0 <= i < j < |b| && b[i] == b[j]
    ensures multiset(b)[b[i]] >= 2
  {
    assert b == b[..j] + [b[j]] + b[j + 1..];
    assert b[i] in b[..j];
    assert multiset(b) == multiset(b[..j]) + multiset{b[j]} + multiset(b[j + 1..]);
  }

  /** Reordering a list cannot create a duplicate username. */
  lemma PermutationKeepsDistinct(a: seq<User>, b: seq<User>)
    requires DistinctUsernames(a) && multiset(a) == multiset(b)
    ensures DistinctUsernames(b)
  {
    forall i, j | 0 <= i < j < |b| ensures b[i].username != b[j].username {
      if b[i] == b[j] {
        RepeatCountsTwice(b, i, j);
        DistinctHasNoRepeats(a, b[i]);
      } else {
        assert b[i] in multiset(a) && b[j] in multiset(a);
        var p :| 0 <= p < |a| && a[p] == b[i];
        var q :| 0 <= q < |a| && a[q] == b[j];
        assert p != q;
      }
    }
  }
}
