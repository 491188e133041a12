/**
 * The admin accounts of app/data/repositories/user_repository.py: the
 * `User` record and the in-memory `UserRepository`, a dictionary from
 * username to user that keeps the order in which usernames first arrived.
 */
module UserRepository {
  import opened Wrappers

  /** An admin account. The password hash is produced by a hashing function
      the caller supplies, and checked by a verifier the caller supplies. */
  class User {
    var username: string
    var passwordHash: string
    var isActive: bool

    /** The dataclass constructor: unless given, a new account has no
        password hash yet and is active. */
    constructor (username: string, passwordHash: string := "", isActive: bool := true)
      ensures this.username == username
      ensures this.passwordHash == passwordHash && this.isActive == isActive
    {
      this.username := username;
      this.passwordHash := passwordHash;
      this.isActive := isActive;
    }

    /** Stores the hash of `password`; nothing else about the user changes. */
    method SetPassword(password: string, hash: string -> string)
      modifies this`passwordHash
      ensures passwordHash == hash(password)
    {
      passwordHash := hash(password);
    }

    /** Asks `verify` whether `password` matches the stored hash. */
    function CheckPassword(password: string, verify: (string, string) -> bool): bool
      reads this
    {
      verify(passwordHash, password)
    }
  }

  ghost predicate NoDuplicates<T>(s: seq<T>) {
    forall i, j | 0 <= i < j < |s| :: s[i] != s[j]
  }

  /** A sequence without repetitions has as many elements as its set. */
  lemma {:induction false} DistinctCardinality<T>(s: seq<T>)
    requires NoDuplicates(s)
    ensures |set x | x in s| == |s|
  {
    if s != [] {
      var rest := s[1..];
      DistinctCardinality(rest);
      assert (set x | x in s) == (set x | x in rest) + {s[0]};
      forall k | 0 <= k < |rest| ensures rest[k] != s[0] {
        assert rest[k] == s[k + 1];
      }
    }
  }

  class UserRepository {
    /** `self._users`, as a map ... */
    var users: map<string, User>
    /** ... and the dictionary's iteration order: each username once, in
        the order it was first saved. */
    var order: seq<string>

    ghost predicate Valid()
      reads this
    {
      && NoDuplicates(order)
      && (forall u :: u in order <==> u in users)
    }

    constructor ()
      ensures Valid()
      ensures users == map[] && order == []
      ensures GetAll() == []
    {
      users := map[];
      order := [];
    }

    /** Files the user under its username, replacing any user already
        there, and hands the same user back. A replaced username keeps its
        place in the iteration order; a new one goes last. */
    method Save(user: User) returns (r: User)
      requires Valid()
      modifies this
      ensures Valid()
      ensures r == user
      ensures users == old(users)[user.username := user]
      ensures order == if user.username in old(users) then old(order) else old(order) + [user.username]
      ensures FindByUsername(user.username) == Some(user)
      ensures forall name | name != user.username :: FindByUsername(name) == old(FindByUsername(name))
    {
      if user.username !in users {
        order := order + [user.username];
      }
      users := users[user.username := user];
      r := user;
    }

    function FindByUsername(username: string): (r: Option<User>)
      reads this
      ensures r.None? <==> username !in users
      ensures r.Some? ==> r.value == users[username]
    {
      if username in users then Some(users[username]) else None
    }

    function Exists(username: string): (r: bool)
      reads this
      ensures r <==> FindByUsername(username).Some?
    {
      username in users
    }

    /** `list(self._users.values())`: one user per stored username, in the
        dictionary's order. */
    function GetAll(): (r: seq<User>)
      reads this
      requires Valid()
      ensures |r| == |order| == |users|
      ensures forall i | 0 <= i < |r| :: order[i] in users && r[i] == users[order[i]]
      ensures forall name | name in users :: users[name] in r
    {
      DistinctCardinality(order);
      assert (set x | x in order) == users.Keys;
      var r := seq(|order|, i requires 0 <= i < |order| && order[i] in users reads this => users[order[i]]);
      assert forall name | name in users :: users[name] in r by {
        forall name | name in users ensures users[name] in r {
          var k :| 0 <= k < |order| && order[k] == name;
          assert r[k] == users[name];
        }
      }
      r
    }
  }
}
