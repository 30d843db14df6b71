/** The user directory: lookups by username and the lazy, first-write-wins
    profile upsert that GET /events performs for the requester. */
module Directory {
  import opened Records

  /** No two profiles share a username. */
  predicate UniqueUsernames(users: seq<User>)
  {
    forall i, j :: 0 <= i < j < |users| ==> users[i].username != users[j].username
  }

  /** Some profile has username `username`. */
  predicate Known(users: seq<User>, username: string)
  {
    exists i :: 0 <= i < |users| && users[i].username == username
  }

  /** `findOne({username})`: the first profile with that username, if any. */
  function FindUser(users: seq<User>, username: string): (r: Option<User>)
    ensures r.None? <==> !Known(users, username)
    ensures r.Some? ==> r.value in users && r.value.username == username
  {
    if users == [] then None
    else if users[0].username == username then Some(users[0])
    else
      var r := FindUser(users[1..], username);
      assert Known(users[1..], username) ==> Known(users, username) by {
        if Known(users[1..], username) {
          var i :| 0 <= i < |users[1..]| && users[1..][i].username == username;
          assert users[i + 1].username == username;
        }
      }
      r
  }

  /** The lookup returns the profile at the first index carrying the name. */
  lemma {:induction false} FindUserAt(users: seq<User>, username: string, j: nat)
    requires j < |users| && users[j].username == username
    requires forall k :: 0 <= k < j ==> users[k].username != username
    ensures FindUser(users, username) == Some(users[j])
  {
    if j > 0 {
      FindUserAt(users[1..], username, j - 1);
    }
  }

  /** GET /userProfile: every profile with that username, in store order. */
  function UsersNamed(users: seq<User>, username: string): (r: seq<User>)
    ensures forall i :: 0 <= i < |r| ==> r[i].username == username
    ensures r == [] <==> !Known(users, username)
  {
    if users == [] then []
    else
      assert Known(users[1..], username) ==> Known(users, username) by {
        if Known(users[1..], username) {
          var i :| 0 <= i < |users[1..]| && users[1..][i].username == username;
          assert users[i + 1].username == username;
        }
      }
      if users[0].username == username then [users[0]] + UsersNamed(users[1..], username)
      else UsersNamed(users[1..], username)
  }

  /** Each profile with the username occurs in the answer as often as it is
      stored, and no other profile occurs. */
  lemma {:induction false} UsersNamedCounts(users: seq<User>, username: string, u: User)
    ensures multiset(UsersNamed(users, username))[u] == if u.username == username then multiset(users)[u] else 0
  {
    if users != [] {
      assert users == [users[0]] + users[1..];
      UsersNamedCounts(users[1..], username, u);
    }
  }

  /** The profile GET /events builds for the requester; `newId` is the
      document id the store assigns to a new document. */
  function Candidate(account: Account, newId: string): (u: User)
    ensures u.id == newId && u.username == account.username
    ensures u.firstName == account.givenName && u.lastName == account.surname && u.fullName == account.fullName
    ensures u.memberSince == account.createdAt
  {
    User(newId, account.username, account.givenName, account.surname, account.fullName, account.createdAt)
  }

  /** Save `candidate` only when no profile has its username. Afterwards
      the username is known, every stored profile stays where it was, and at
      most one profile is added. */
  function Upsert(users: seq<User>, candidate: User): (r: seq<User>)
    ensures Known(r, candidate.username)
    ensures users <= r && |r| <= |users| + 1
  {
    if FindUser(users, candidate.username).None? then
      var r := users + [candidate];
      assert r[|users|].username == candidate.username;
      r
    else users
  }

  /** The upsert adds exactly one profile when the username is new and
      changes nothing otherwise. */
  lemma UpsertEffect(users: seq<User>, candidate: User)
    ensures Known(users, candidate.username) ==> Upsert(users, candidate) == users
    ensures !Known(users, candidate.username) ==> Upsert(users, candidate) == users + [candidate]
  {
  }

  /** Upserting the same username again, whatever the rest of the new
      candidate says, leaves the directory as the first upsert left it. */
  lemma UpsertIdempotent(users: seq<User>, first: User, second: User)
    requires first.username == second.username
    ensures Upsert(Upsert(users, first), second) == Upsert(users, first)
  {
    var once := Upsert(users, first);
    if !Known(users, first.username) {
      var n := |users|;
      assert once[n].username == first.username;
    }
    assert Known(once, second.username);
  }

  /** The upsert keeps usernames unique. */
  lemma UpsertKeepsUnique(users: seq<User>, candidate: User)
    requires UniqueUsernames(users)
    ensures UniqueUsernames(Upsert(users, candidate))
  {
  }

  /** First write wins: after the upsert, the lookup by the candidate's
      username gives the profile that was there before, or else the
      candidate. */
  lemma {:induction false} UpsertFirstWins(users: seq<User>, candidate: User)
    ensures FindUser(Upsert(users, candidate), candidate.username)
         == if Known(users, candidate.username)
            then FindUser(users, candidate.username)
            else Some(candidate)
  {
    if !Known(users, candidate.username) {
      var s := users + [candidate];
      assert s[|users|] == candidate;
      forall k | 0 <= k < |users|
        ensures s[k].username != candidate.username
      {
        assert s[k] == users[k];
      }
      FindUserAt(s, candidate.username, |users|);
    }
  }

  /** With unique usernames, GET /userProfile returns at most one profile,
      and after the upsert exactly one: the first one stored. */
  lemma {:induction false} ProfileAfterUpsert(users: seq<User>, candidate: User)
    requires UniqueUsernames(users)
    ensures Known(Upsert(users, candidate), candidate.username)
    ensures var s := Upsert(users, candidate);
      UsersNamed(s, candidate.username) == [FindUser(s, candidate.username).value]
  {
    var s := Upsert(users, candidate);
    UpsertKeepsUnique(users, candidate);
    UpsertFirstWins(users, candidate);
    SingleNamed(s, candidate.username);
  }

  /** With unique usernames, a known name names exactly its first profile. */
  lemma {:induction false} SingleNamed(users: seq<User>, username: string)
    requires UniqueUsernames(users) && Known(users, username)
    ensures UsersNamed(users, username) == [FindUser(users, username).value]
  {
    if users[0].username == username {
      assert !Known(users[1..], username) by {
        forall k | 0 <= k < |users[1..]|
          ensures users[1..][k].username != username
        {
          assert users[1..][k] == users[k + 1];
        }
      }
    } else {
      var i :| 0 <= i < |users| && users[i].username == username;
      assert users[1..][i - 1].username == username;
      SingleNamed(users[1..], username);
    }
  }
}
