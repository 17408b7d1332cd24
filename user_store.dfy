/** `UserRepositoryFile`: the users and their bearer tokens, kept in one list. */
module UserStore {
  import opened Common
  import opened Models
  import opened Arrays

  /** The `find` predicate of `findByToken`. */
  function HasToken(token: string): StoredUser -> bool {
    (u: StoredUser) => u.token == token
  }

  /** `users.find(u => u.token === token) || null`: a stored user object is always truthy. */
  function FindUser(us: seq<StoredUser>, token: string): (r: Option<User>)
    ensures r.None? <==> forall i :: 0 <= i < |us| ==> us[i].token != token
  {
    var i := FindIndex(us, HasToken(token));
    if i >= 0 then Some(us[i].user) else None
  }

  /** A found user is the first stored entry with that token. */
  lemma FindUserAt(us: seq<StoredUser>, token: string) returns (i: nat)
    requires FindUser(us, token).Some?
    ensures i < |us| && us[i].token == token && us[i].user == FindUser(us, token).value
    ensures forall j :: 0 <= j < i ==> us[j].token != token
  {
    i := FindIndex(us, HasToken(token));
  }

  /** A token stored for a user finds that user when no earlier entry carries the same token. */
  lemma FindUserFirst(us: seq<StoredUser>, token: string, i: nat)
    requires i < |us| && us[i].token == token
    requires forall j :: 0 <= j < i ==> us[j].token != token
    ensures FindUser(us, token) == Some(us[i].user)
  {
    FindIndexIs(us, HasToken(token), i);
  }

  class UserRepositoryFile {
    /** The `users` array of `users.json`. */
    var users: seq<StoredUser>
    /** The tokens `findByToken` has been asked for, in call order. */
    ghost var lookups: seq<string>

    constructor (initial: seq<StoredUser>)
      ensures users == initial && lookups == []
    {
      users := initial;
      lookups := [];
    }

    method FindByToken(token: string) returns (r: Option<User>)
      modifies this`lookups
      ensures r == FindUser(users, token)
      ensures lookups == old(lookups) + [token]
    {
      lookups := lookups + [token];
      r := FindUser(users, token);
    }

    /** `createMany`: overwrite the stored list with `us`; nothing stored before survives. */
    method CreateMany(us: seq<StoredUser>)
      modifies this`users
      ensures users == us
    {
      users := us;
    }
  }
}
